/**
 The B+ tree of an index file (src/BTree/BTree.h): nodes in memory hang from their parents, and are written to and read
 from the record file; `tree` is the tree that the file holds.
 */
module BTrees {
  import opened Locations
  import opened TreeShape
  import opened TreeLeaf
  import opened TreeOrder
  import opened TreeSplit
  import opened NodeFormat
  import opened NodeStore
  import opened Bytes

  /** A node in memory. */
  class Node {
    var parent: Node?
    var loc: Location
    var keys: seq<Key>
    var children: seq<Location>
    var isLeaf: bool

    /** What writeBack stores for this node. */
    function Rec(): NodeRec
      reads this, parent
    {
      NodeRec(isLeaf, if parent == null then NULL_LOCATION else parent.loc, keys, children)
    }

    /** The node in memory holds what `n` says, whoever its parent is. */
    ghost predicate Carries(n: NodeRec)
      reads this
    {
      isLeaf == n.isLeaf && keys == n.keys && children == n.children
    }

    constructor (parent: Node?, loc: Location, isLeaf: bool, keys: seq<Key>, children: seq<Location>)
      ensures this.parent == parent && this.loc == loc
      ensures this.isLeaf == isLeaf && this.keys == keys && this.children == children
    {
      this.parent, this.loc, this.isLeaf, this.keys, this.children := parent, loc, isLeaf, keys, children;
    }

    method InsertLocDataInLeafNode(at: nat, key: Key, locData: Location)
      requires isLeaf && at <= |keys| && at <= |children|
      modifies this
      ensures parent == old(parent) && loc == old(loc) && isLeaf
      ensures keys == InsertAt(old(keys), at, key) && children == InsertAt(old(children), at, locData)
    {
      keys := keys[..at] + [key] + keys[at..];
      children := children[..at] + [locData] + children[at..];
    }

    method InsertNodeAt(keyAt: nat, key: Key, node: Node)
      requires !isLeaf && keyAt <= |keys| && keyAt < |children|
      modifies this
      ensures parent == old(parent) && loc == old(loc) && !isLeaf
      ensures keys == InsertAt(old(keys), keyAt, key)
      ensures children == InsertAt(old(children), keyAt + 1, old(node.loc))
    {
      keys := keys[..keyAt] + [key] + keys[keyAt..];
      children := children[..keyAt + 1] + [node.loc] + children[keyAt + 1..];
    }

    /** The index of a child location among the children. */
    method GetChildPos(l: Location) returns (i: nat)
      requires l in children
      ensures i < |children| && children[i] == l
    {
      for j := 0 to |children|
        invariant l !in children[..j]
      {
        if children[j] == l {
          return j;
        }
      }
      assert false;
    }

    /** The index of a key among the keys. */
    method FindKey(key: Key) returns (i: nat)
      requires key in keys
      ensures i < |keys| && keys[i] == key
    {
      for j := 0 to |keys|
        invariant key !in keys[..j]
      {
        if keys[j] == key {
          return j;
        }
      }
      assert false;
    }

    /** Where a leaf holds `key`, or where it would be inserted. */
    method SearchLeaf(key: Key) returns (at: nat, found: bool)
      requires Sorted(keys) && |keys| > 0
      ensures found <==> key in keys
      ensures found ==> at < |keys| && keys[at] == key
      ensures !found ==> Belongs(keys, at, key)
    {
      found := false;
      var firstKey, lastKey := keys[0], keys[|keys| - 1];
      if key < firstKey {
        at := 0;
      } else if key == firstKey {
        at, found := 0, true;
      } else if key > lastKey {
        at := |keys|;
      } else if key == lastKey {
        at, found := |keys| - 1, true;
      } else {
        for i := 0 to |keys| - 1
          invariant keys[i] <= key
        {
          if keys[i] == key {
            return i, true;
          } else if keys[i] <= key < keys[i + 1] {
            return i + 1, false;
          }
        }
        assert false;
      }
    }

    /** Which child of an internal node covers `key`. */
    method SearchChild(key: Key, ghost s: Span) returns (i: nat)
      requires Sorted(keys) && |keys| > 0 && |children| == |keys| + 1
      requires s.rank > 0 && Within(key, s)
      ensures i <= |keys| && Within(key, ChildSpan(Rec(), s, i))
    {
      var firstKey, lastKey := keys[0], keys[|keys| - 1];
      if key < firstKey {
        return 0;
      } else if key >= lastKey {
        return |children| - 1;
      } else {
        for j := 0 to |keys| - 1
          invariant keys[j] <= key
        {
          if keys[j] <= key < keys[j + 1] {
            return j + 1;
          }
        }
        assert false;
      }
    }
  }

  /** A walk saw the bindings of `keys`, one after the other. */
  ghost predicate Shows(c: map<Key, seq<byte>>, seen: seq<(Key, seq<byte>)>, keys: seq<Key>) {
    && |seen| == |keys|
    && forall i :: 0 <= i < |keys| ==> keys[i] in c && seen[i] == (keys[i], c[keys[i]])
  }

  /** The pairs are the bindings of `c`, in strictly increasing order of the keys. */
  ghost predicate EveryBindingOnce(c: map<Key, seq<byte>>, seen: seq<(Key, seq<byte>)>) {
    && (forall i, j :: 0 <= i < j < |seen| ==> seen[i].0 < seen[j].0)
    && (forall i :: 0 <= i < |seen| ==> seen[i].0 in c && seen[i].1 == c[seen[i].0])
    && (forall k | k in c :: (k, c[k]) in seen)
  }

  /** How a removal ends; `AssertionFailed` is where the source gives up because borrowing is not implemented. */
  datatype RemoveResult = Removed | KeyNotFound | AssertionFailed

  /** A leaf that becomes empty is the root, or has a parent that keeps `min` children. */
  ghost predicate CanErase(t: Tree, min: nat, key: Key) {
    && key in t.home && t.home[key] in t.nodes
    && var n := t.nodes[t.home[key]];
    && (|n.keys| == 1 && t.home[key] != t.root ==>
          n.parent in t.nodes && |t.nodes[n.parent].children| - 1 >= min)
  }

  /** An internal node that is still there has the children it had, or one fewer and at least `min`. */
  ghost predicate KeepsChildren(was: map<Location, NodeRec>, now: map<Location, NodeRec>, min: nat, l: Location) {
    l in now && !now[l].isLeaf ==>
      l in was && (|now[l].children| == |was[l].children| || |was[l].children| - 1 == |now[l].children| >= min)
  }

  ghost predicate AllKeepChildren(was: map<Location, NodeRec>, now: map<Location, NodeRec>, min: nat) {
    forall l {:trigger KeepsChildren(was, now, min, l)} :: KeepsChildren(was, now, min, l)
  }

  /** The leaf at `l` holds `key` only, and its parent has no more than `min` children. */
  ghost predicate HasToBorrow(nodes: map<Location, NodeRec>, l: Location, key: Key, min: nat) {
    && l in nodes && nodes[l].isLeaf && nodes[l].keys == [key]
    && nodes[l].parent in nodes && |nodes[nodes[l].parent].children| <= min
  }

  /** A tree of rank 3 with two leaves, one of one key: removing that key is where the source gives up. */
  lemma RemovalGivesUp() returns (t: Tree)
    ensures Good(t, 3) && LeavesHalfFull(t, 3) && 1 in t.kv && 2 in t.kv && |t.nodes[t.root].children| == 2
        && !CanErase(t, 2, 1)
  {
    var a, b, q, d, e := Location(2, 0), Location(3, 0), Location(4, 0), Location(5, 0), Location(6, 0);
    t := Tree(q, map[q := NodeRec(false, NULL_LOCATION, [2], [a, b]), a := NodeRec(true, q, [1], [d]),
                     b := NodeRec(true, q, [2], [e])],
              map[q := Span(1, None, None), a := Span(0, None, Some(2)), b := Span(0, Some(2), None)],
              map[1 := d, 2 := e], map[1 := a, 2 := b]);
    assert t.nodes[q].children[0] == a && t.nodes[q].children[1] == b;
    assert ChildOk(t, q, 0) && ChildOk(t, q, 1);
    assert LocalOk(t, q, 3, NULL_LOCATION) && LocalOk(t, a, 3, NULL_LOCATION) && LocalOk(t, b, 3, NULL_LOCATION);
    assert HomeOk(t, 1) && HomeOk(t, 2);
    assert HalfFull(t, 3, a) && HalfFull(t, 3, b);
  }

  /**
   Where every leaf below the root is half full and `BRankMax` is at least 4, a leaf that loses a key keeps another, so
   nothing has to be borrowed.
   */
  lemma HalfFullCanErase(t: Tree, max: nat, min: nat, key: Key)
    requires Good(t, max) && LeavesHalfFull(t, max) && max >= 4 && key in t.kv
    ensures CanErase(t, min, key)
  {
    assert HomeOk(t, key);
    assert HalfFull(t, max, t.home[key]);
  }

  /** The stored nodes are those of the tree, except perhaps for what is stored at `n`. */
  ghost predicate SameBut(nodes: map<Location, NodeRec>, stored: map<Location, NodeRec>, n: Location) {
    && stored.Keys == nodes.Keys
    && forall l | l in nodes && l != n :: stored[l] == nodes[l]
  }

  ghost predicate AsStored(t: Tree, path: seq<Node>, i: nat)
    requires i < |path|
    reads path
  {
    var n := path[i];
    && (i > 0 ==> n.parent == path[i - 1])
    && (i == 0 ==> n.parent == null)
    && n.loc in t.nodes && n.loc in t.span && t.root in t.span
    && n.Rec() == t.nodes[n.loc]
    && t.span[n.loc].rank + i == t.span[t.root].rank
  }

  /**
   The nodes from the root down to a node: each hangs from the one before it, and the file agrees with all of them.
   */
  ghost predicate OnPath(t: Tree, path: seq<Node>)
    reads path
  {
    && |path| > 0
    && path[0].parent == null && path[0].loc == t.root
    && (forall i {:trigger AsStored(t, path, i)} :: 0 <= i < |path| ==> AsStored(t, path, i))
  }

  /** The data that the keys lead to. */
  ghost function Bindings(kv: map<Key, Location>, data: map<Location, seq<byte>>): map<Key, seq<byte>>
    requires kv.Values <= data.Keys
  {
    map k | k in kv :: data[kv[k]]
  }

  lemma BindNew(kv: map<Key, Location>, data: map<Location, seq<byte>>, key: Key, l: Location, record: seq<byte>)
    requires kv.Values <= data.Keys && l !in data
    ensures kv[key := l].Values <= data[l := record].Keys
    ensures Bindings(kv[key := l], data[l := record]) == Bindings(kv, data)[key := record]
  {
    forall k | k in kv ensures kv[k] in data {
      assert kv[k] in kv.Values;
    }
  }

  /** New data for a key, at another place. */
  lemma BindAnew(kv: map<Key, Location>, data: map<Location, seq<byte>>, key: Key, l: Location, record: seq<byte>)
    requires kv.Values <= data.Keys && Injective(kv) && key in kv && l !in data - {kv[key]}
    ensures var after := (data - {kv[key]})[l := record];
      kv[key := l].Values <= after.Keys && Bindings(kv[key := l], after) == Bindings(kv, data)[key := record]
  {
    forall k | k in kv ensures kv[k] in data && (k != key ==> kv[k] != kv[key]) {
      assert kv[k] in kv.Values && Apart(kv, key, k);
    }
  }

  lemma BindLess(kv: map<Key, Location>, data: map<Location, seq<byte>>, key: Key)
    requires kv.Values <= data.Keys && Injective(kv) && key in kv
    ensures (kv - {key}).Values <= (data - {kv[key]}).Keys
    ensures Bindings(kv - {key}, data - {kv[key]}) == Bindings(kv, data) - {key}
  {
    forall k | k in kv ensures kv[k] in data && (k != key ==> kv[k] != kv[key]) {
      assert kv[k] in kv.Values && Apart(kv, key, k);
    }
  }

  class BTree {
    const store: NodeStore
    /** BRankMin: an internal node that drops a child must keep this many. */
    const rankMin: nat
    /** BRankMax: a node that reaches this many keys is split. */
    const rankMax: nat
    /** The root location in page 0; the null location when the tree is empty. */
    var root: Location

    /** The tree that the file holds. */
    ghost var tree: Tree

    ghost predicate Valid()
      reads this, store, store.rm
    {
      && store.Valid()
      && rankMax == store.max && rankMin * 2 >= rankMax
      && Good(tree, rankMax) && tree.root == root
      && store.nodes == tree.nodes
      && tree.kv.Values <= store.data.Keys
    }

    /** The bindings of the tree. */
    ghost function Contents(): map<Key, seq<byte>>
      reads this, store
      requires tree.kv.Values <= store.data.Keys
    {
      Bindings(tree.kv, store.data)
    }

    /** setupBTree: an empty index. */
    constructor (store: NodeStore, rankMin: nat)
      requires store.Valid() && store.nodes == map[] && rankMin * 2 >= store.max
      ensures Valid() && Contents() == map[] && root == NULL_LOCATION && LeavesHalfFull(tree, rankMax)
      ensures this.store == store && this.rankMin == rankMin && this.rankMax == store.max
    {
      this.store, this.rankMin, this.rankMax := store, rankMin, store.max;
      root, tree := NULL_LOCATION, EMPTY_TREE;
    }

    /**
     parseNodeFromPage: load a node below `parent`. The source asserts that the stored parent pointer names the node
     it was reached from; here that is the second precondition.
     */
    method ParseNodeFromPage(parent: Node?, loc: Location) returns (node: Node)
      requires store.Valid() && loc in store.nodes
      requires store.nodes[loc].parent == if parent == null then NULL_LOCATION else parent.loc
      ensures fresh(node) && node.parent == parent && node.loc == loc
      ensures node.isLeaf == store.nodes[loc].isLeaf
      ensures node.keys == store.nodes[loc].keys && node.children == store.nodes[loc].children
    {
      var nf := store.ReadNode(loc);
      node := new Node(parent, loc, nf.isLeaf, nf.keys, nf.children);
    }

    /** getRoot: null for the empty tree. */
    method GetRoot() returns (node: Node?)
      requires Valid()
      ensures node == null <==> root == NULL_LOCATION
      ensures node != null ==> fresh(node) && OnPath(tree, [node])
    {
      if root == NULL_LOCATION {
        return null;
      }
      assert LocalOk(tree, root, rankMax, NULL_LOCATION);
      node := ParseNodeFromPage(null, root);
      assert AsStored(tree, [node as Node], 0);
    }

    /** A child that was loaded below the last node of a path extends the path. */
    lemma PathGrows(t: Tree, path: seq<Node>, child: Node)
      requires OnPath(t, path) && child.parent == path[|path| - 1]
      requires child.loc in t.nodes && child.loc in t.span && child.Rec() == t.nodes[child.loc]
      requires path[|path| - 1].loc in t.span
      requires t.span[child.loc].rank + 1 == t.span[path[|path| - 1].loc].rank
      ensures OnPath(t, path + [child])
    {
      var longer := path + [child];
      assert AsStored(t, path, |path| - 1);
      forall i | 0 <= i < |longer| ensures AsStored(t, longer, i) {
        if i < |path| {
          assert longer[i] == path[i] && AsStored(t, path, i);
          assert i > 0 ==> longer[i - 1] == path[i - 1];
        }
      }
    }

    /** One step of searchNode: load the child whose interval holds `key`. */
    method Descend(node: Node, key: Key, ghost path: seq<Node>) returns (child: Node)
      requires Valid() && OnPath(tree, path) && node == path[|path| - 1]
      requires node.loc in tree.nodes && Within(key, tree.span[node.loc]) && !node.isLeaf
      ensures fresh(child) && OnPath(tree, path + [child])
      ensures child.loc in tree.nodes && Within(key, tree.span[child.loc])
      ensures tree.span[child.loc].rank < tree.span[node.loc].rank
    {
      assert AsStored(tree, path, |path| - 1);
      assert LocalOk(tree, node.loc, rankMax, NULL_LOCATION);
      var i := node.SearchChild(key, tree.span[node.loc]);
      assert ChildOk(tree, node.loc, i);
      child := ParseNodeFromPage(node, node.children[i]);
      PathGrows(tree, path, child);
    }

    /** The end of searchNode: a leaf decides about the keys of its interval. */
    method SearchInLeaf(node: Node, key: Key, ghost path: seq<Node>) returns (at: nat, found: bool)
      requires Valid() && OnPath(tree, path) && node == path[|path| - 1]
      requires node.loc in tree.nodes && Within(key, tree.span[node.loc]) && node.isLeaf
      ensures found <==> key in tree.kv
      ensures found ==> at < |node.keys| && at < |node.children| && node.keys[at] == key
      ensures found ==> node.children[at] == tree.kv[key]
      ensures !found ==> Belongs(node.keys, at, key) && at <= |node.children|
    {
      assert AsStored(tree, path, |path| - 1);
      assert LocalOk(tree, node.loc, rankMax, NULL_LOCATION);
      at, found := node.SearchLeaf(key);
      LeafDecides(tree, rankMax, NULL_LOCATION, node.loc, key);
    }

    /**
     searchNode: the leaf whose interval holds `key`, with the nodes above it. Either it holds the key, or the tree does
     not bind it.
     */
    method SearchNode(node: Node, key: Key, ghost path: seq<Node>)
      returns (target: Node, at: nat, found: bool, ghost down: seq<Node>)
      requires Valid() && OnPath(tree, path) && node == path[|path| - 1]
      requires node.loc in tree.nodes && Within(key, tree.span[node.loc])
      ensures OnPath(tree, down) && target == down[|down| - 1]
      ensures forall n | n in down :: n in path || fresh(n)
      ensures target.isLeaf && target.loc in tree.nodes && Within(key, tree.span[target.loc])
      ensures found <==> key in tree.kv
      ensures found ==> at < |target.keys| && at < |target.children| && target.keys[at] == key
      ensures found ==> target.children[at] == tree.kv[key]
      ensures !found ==> Belongs(target.keys, at, key) && at <= |target.children|
      decreases tree.span[node.loc].rank
    {
      if node.isLeaf {
        at, found := SearchInLeaf(node, key, path);
        return node, at, found, path;
      }
      var child := Descend(node, key, path);
      target, at, found, down := SearchNode(child, key, path + [child]);
    }

    /** Find the leaf that holds `key`. Null is the source's KeyNotFound. */
    method Find(key: Key) returns (target: Node?, at: nat, ghost path: seq<Node>)
      requires Valid()
      ensures target == null <==> key !in tree.kv
      ensures target != null ==>
        (&& fresh(target) && (forall i :: 0 <= i < |path| ==> fresh(path[i]))
         && OnPath(tree, path) && target == path[|path| - 1] && target.isLeaf
         && at < |target.keys| && at < |target.children|
         && target.keys[at] == key && target.children[at] == tree.kv[key])
    {
      target, at, path := null, 0, [];
      var r := GetRoot();
      if r != null {
        assert AsStored(tree, [r as Node], 0) && LocalOk(tree, root, rankMax, NULL_LOCATION);
        var node, i, found;
        node, i, found, path := SearchNode(r, key, [r]);
        if found {
          assert node in path;
          assert forall k :: 0 <= k < |path| ==> path[k] in path;
          target, at := node, i;
        }
      }
    }

    /** The first half of update: read the data of `key`. */
    method FindData(key: Key) returns (target: Node?, at: nat, record: seq<byte>, ghost path: seq<Node>)
      requires Valid()
      ensures target == null <==> key !in tree.kv
      ensures target != null ==>
        (&& fresh(target) && (forall i :: 0 <= i < |path| ==> fresh(path[i]))
         && OnPath(tree, path) && target == path[|path| - 1] && target.isLeaf
         && at < |target.keys| && at < |target.children|
         && target.keys[at] == key && target.children[at] == tree.kv[key]
         && tree.kv[key] in store.data && record == store.data[tree.kv[key]])
    {
      record := [];
      target, at, path := Find(key);
      if target != null {
        assert tree.kv[key] in tree.kv.Values;
        record := store.ReadData(target.children[at]);
      }
    }

    /** get: None is the source's KeyNotFound. */
    method Get(key: Key) returns (data: Option<seq<byte>>)
      requires Valid()
      ensures data == if key in Contents() then Some(Contents()[key]) else None
    {
      ghost var path;
      var target, at, record;
      target, at, record, path := FindData(key);
      data := if target == null then None else Some(record);
    }

    // ---------- splitNode ----------

    /** The file holds `tree`, except that the node at `n` has not been written since it changed. */
    ghost predicate Unwritten(n: Location)
      reads this, store, store.rm
    {
      && store.Valid()
      && rankMax == store.max && rankMin * 2 >= rankMax
      && Shaped(tree, rankMax, n) && tree.root == root
      && SameBut(tree.nodes, store.nodes, n)
      && tree.kv.Values <= store.data.Keys
    }

    lemma ReparentStep(nodes: map<Location, NodeRec>, locs: seq<Location>, p: Location, i: nat)
      requires i < |locs| && locs[i] in nodes
      ensures var before := Reparent(nodes, locs[..i], p);
        && locs[i] in before
        && Reparent(nodes, locs[..i + 1], p) == before[locs[i] := before[locs[i]].(parent := p)]
    {
      assert locs[..i + 1] == locs[..i] + [locs[i]];
    }

    lemma ReparentNone(nodes: map<Location, NodeRec>, p: Location)
      ensures Reparent(nodes, [], p) == nodes
    {
    }

    /** Point the stored nodes in `locs` at `p`, one after the other. */
    method UpdateParents(locs: seq<Location>, p: Location)
      requires store.Valid() && forall l | l in locs :: l in store.nodes
      modifies store, store.rm
      ensures store.Valid() && store.data == old(store.data) && store.Room() == old(store.Room())
      ensures store.nodes == Reparent(old(store.nodes), locs, p)
    {
      ghost var before, data, room := store.nodes, store.data, store.Room();
      ReparentNone(before, p);
      assert locs[..0] == [];
      for i := 0 to |locs|
        invariant store.Valid() && store.data == data && store.Room() == room
        invariant store.nodes == Reparent(before, locs[..i], p)
      {
        ReparentStep(before, locs, p, i);
        store.UpdateParentLoc(locs[i], p);
      }
      assert locs[..|locs|] == locs;
    }

    /** The right half of `node` as a node of its own, written to the file. */
    method NewRightHalf(node: Node) returns (ret: Node)
      requires store.Valid() && store.Room() >= 2 && rankMax == store.max
      requires Overfull(node.Rec(), rankMax)
      modifies store, store.rm
      ensures fresh(ret) && ret.parent == node.parent
      ensures ret.isLeaf == node.isLeaf && ret.Rec() == RightHalf(node.Rec(), rankMax)
      ensures ret.loc !in old(store.nodes) && ret.loc != NULL_LOCATION
      ensures store.Valid() && store.data == old(store.data) && store.Room() >= old(store.Room()) - 2
      ensures store.nodes == old(store.nodes)[ret.loc := ret.Rec()]
    {
      var newLeftNodeSize := rankMax / 2;
      var from := if node.isLeaf then newLeftNodeSize else newLeftNodeSize + 1;
      ret := new Node(node.parent, NULL_LOCATION, node.isLeaf, node.keys[from..], node.children[from..]);
      ret.loc := store.NewNode(ret.Rec());
    }

    /** What is left of `node` after its right half went, written to the file. */
    method KeepLeftHalf(node: Node)
      requires store.Valid() && node.loc in store.nodes && rankMax == store.max
      requires Overfull(node.Rec(), rankMax)
      modifies node, store, store.rm
      ensures node.parent == old(node.parent) && node.loc == old(node.loc) && node.isLeaf == old(node.isLeaf)
      ensures node.keys == LeftHalf(old(node.Rec()), rankMax).keys
      ensures node.children == LeftHalf(old(node.Rec()), rankMax).children
      ensures store.Valid() && store.data == old(store.data) && store.Room() == old(store.Room())
      ensures store.nodes == old(store.nodes)[node.loc := LeftHalf(old(node.Rec()), rankMax)]
    {
      var newLeftNodeSize := rankMax / 2;
      var from := if node.isLeaf then newLeftNodeSize else newLeftNodeSize + 1;
      node.keys, node.children := node.keys[..newLeftNodeSize], node.children[..from];
      store.WriteNode(node.loc, node.Rec());
    }

    /** The right half gets its own node, and the children in it their new parent. */
    method MoveRightHalf(node: Node) returns (ret: Node)
      requires store.Valid() && store.Room() >= 2 && rankMax == store.max
      requires Overfull(node.Rec(), rankMax)
      requires forall l | l in Moved(node.Rec(), rankMax) :: l in store.nodes
      modifies store, store.rm
      ensures fresh(ret) && ret.parent == node.parent
      ensures ret.isLeaf == node.isLeaf && ret.Rec() == RightHalf(node.Rec(), rankMax)
      ensures ret.loc !in old(store.nodes) && ret.loc != NULL_LOCATION
      ensures store.Valid() && store.data == old(store.data) && store.Room() >= old(store.Room()) - 2
      ensures store.nodes ==
        Reparent(old(store.nodes)[ret.loc := RightHalf(node.Rec(), rankMax)], Moved(node.Rec(), rankMax), ret.loc)
    {
      ret := NewRightHalf(node);
      if !node.isLeaf {
        UpdateParents(ret.children, ret.loc);
      } else {
        ReparentNone(store.nodes, ret.loc);
      }
    }

    /** Writing the halves around the re-parenting amounts to `HalvedNodes`. */
    lemma HalvesInFile(nodes: map<Location, NodeRec>, stored: map<Location, NodeRec>, n: Location, r: Location)
      requires SameBut(nodes, stored, n) && n in nodes && Overfull(nodes[n], rankMax) && r !in nodes
      requires forall l | l in Moved(nodes[n], rankMax) :: l in nodes && l != n
      ensures var node := nodes[n];
        Reparent(stored[r := RightHalf(node, rankMax)], Moved(node, rankMax), r)[n := LeftHalf(node, rankMax)]
        == HalvedNodes(nodes, n, r, rankMax)
    {
    }

    /**
     The first part of splitNode, before the parent learns of it: the right half of `node` moves to a new node, and the
     children that move with it are pointed at their new parent.
     */
    method CutInHalf(node: Node, ghost nodes: map<Location, NodeRec>) returns (ret: Node)
      requires store.Valid() && store.Room() >= 2 && rankMax == store.max
      requires SameBut(nodes, store.nodes, node.loc) && node.loc in nodes && node.Rec() == nodes[node.loc]
      requires Overfull(nodes[node.loc], rankMax)
      requires forall l | l in Moved(nodes[node.loc], rankMax) :: l in nodes && l != node.loc
      modifies node, store, store.rm
      ensures fresh(ret) && ret.parent == node.parent == old(node.parent) && node.loc == old(node.loc)
      ensures ret.loc !in nodes && ret.loc != NULL_LOCATION
      ensures node.Carries(LeftHalf(nodes[node.loc], rankMax)) && ret.Carries(RightHalf(nodes[node.loc], rankMax))
      ensures store.Valid() && store.data == old(store.data) && store.Room() >= old(store.Room()) - 2
      ensures store.nodes == HalvedNodes(nodes, node.loc, ret.loc, rankMax)
    {
      ghost var stored := store.nodes;
      ret := MoveRightHalf(node);
      HalvesInFile(nodes, stored, node.loc, ret.loc);
      KeepLeftHalf(node);
    }

    lemma MovedInTree(t: Tree, n: Location, max: nat)
      requires Shaped(t, max, n) && n in t.nodes && Overfull(t.nodes[n], max)
      ensures forall l | l in Moved(t.nodes[n], max) :: l in t.nodes && l != n
    {
      assert LocalOk(t, n, max, n);
      forall l | l in Moved(t.nodes[n], max) ensures l in t.nodes && l != n {
        MovedWereChildren(t, n, max, l);
      }
    }

    /** The nodes above the last one, none of which is that node. */
    lemma PathAbove(t: Tree, path: seq<Node>)
      requires OnPath(t, path) && |path| >= 2
      ensures OnPath(t, path[..|path| - 1])
      ensures path[|path| - 1] !in path[..|path| - 1]
      ensures path[|path| - 1].parent == path[|path| - 2]
      ensures path[|path| - 1].loc in t.nodes && t.nodes[path[|path| - 1].loc].parent == path[|path| - 2].loc
      ensures path[|path| - 1].loc != t.root
    {
      var top, last := path[..|path| - 1], |path| - 1;
      assert AsStored(t, path, last) && AsStored(t, path, 0) && AsStored(t, path, last - 1);
      forall i | 0 <= i < |top| ensures AsStored(t, top, i) && top[i] != path[last] {
        assert AsStored(t, path, i);
      }
    }

    /** A split below the root, as far as the nodes above it are concerned. */
    lemma AdoptPlan(t: Tree, n: Location, r: Location, pos: nat, max: nat)
      requires CanSplit(t, n, r, max) && n != t.root && ChildAt(t, n, pos)
      ensures var u, p := SplitChild(t, n, r, pos, max), t.nodes[n].parent;
        && Shaped(u, max, p) && u.kv == t.kv && u.root == t.root && t.root in t.span && u.root in u.span
        && u.span[u.root].rank == t.span[t.root].rank
        && SameBut(u.nodes, HalvedNodes(t.nodes, n, r, max), p)
        && p in u.nodes && u.nodes[p] == Adopt(t.nodes[p], pos, Separator(t.nodes[n], max), r)
        && p in u.span && p in t.span && u.span[p] == t.span[p]
    {
      ParentIsAbove(t, n, r, max);
      SplitChildShaped(t, n, r, pos, max);
      assert RankOk(t, n);
    }

    /** The nodes above the parent are left alone. */
    lemma AboveParentUnchanged(t: Tree, n: Location, r: Location, pos: nat, max: nat, l: Location)
      requires CanSplit(t, n, r, max) && n != t.root && ChildAt(t, n, pos)
      requires l in t.nodes && l != t.nodes[n].parent && t.span[l].rank > t.span[n].rank
      ensures var u := SplitChild(t, n, r, pos, max);
        && l in u.nodes && l in u.span && u.nodes[l] == t.nodes[l] && u.span[l] == t.span[l]
    {
      ParentIsAbove(t, n, r, max);
      MovedWereChildren(t, n, max, l);
    }

    ghost predicate Untouched(t: Tree, u: Tree, l: Location) {
      && l in t.nodes && l in t.span && l in u.nodes && l in u.span
      && u.nodes[l] == t.nodes[l] && u.span[l] == t.span[l]
    }

    /** The tree after the parent took the right half. */
    lemma Adopted(t: Tree, n: Location, r: Location, pos: nat, max: nat) returns (u: Tree)
      requires CanSplit(t, n, r, max) && n != t.root && ChildAt(t, n, pos)
      ensures var p := t.nodes[n].parent;
        && Shaped(u, max, p) && u.kv == t.kv && u.root == t.root && t.root in t.span && u.root in u.span
        && u.span[u.root].rank == t.span[t.root].rank
        && SameBut(u.nodes, HalvedNodes(t.nodes, n, r, max), p)
        && p in u.nodes && u.nodes[p] == Adopt(t.nodes[p], pos, Separator(t.nodes[n], max), r)
        && p in u.span && p in t.span && u.span[p] == t.span[p]
      ensures forall l {:trigger Untouched(t, u, l)} | l in t.nodes && l != t.nodes[n].parent && l in t.span
                && t.span[l].rank > t.span[n].rank :: Untouched(t, u, l)
      ensures LeavesHalfFull(t, max) ==> LeavesHalfFull(u, max)
    {
      AdoptPlan(t, n, r, pos, max);
      u := SplitChild(t, n, r, pos, max);
      forall l | l in t.nodes && l != t.nodes[n].parent && l in t.span && t.span[l].rank > t.span[n].rank
        ensures Untouched(t, u, l)
      {
        AboveParentUnchanged(t, n, r, pos, max, l);
      }
      if LeavesHalfFull(t, max) {
        SplitChildFills(t, n, r, pos, max);
      }
    }

    /** Writing the new root and then the halves below it amounts to `SplitRoot`. */
    lemma RootInFile(t: Tree, r: Location, q: Location, max: nat, halved: map<Location, NodeRec>,
                     stored: map<Location, NodeRec>) returns (u: Tree)
      requires CanSplitRoot(t, r, q, max) && halved == HalvedNodes(t.nodes, t.root, r, max)
      requires var node, sep := t.nodes[t.root], Separator(t.nodes[t.root], max);
        stored == halved
          [q := NodeRec(false, NULL_LOCATION, [sep], [t.root, r])]
          [t.root := LeftHalf(node, max).(parent := q)][r := RightHalf(node, max).(parent := q)]
      ensures Good(u, max) && u.nodes == stored && u.root == q && u.kv == t.kv
      ensures q in u.span && t.root in t.span && u.span[q].rank == t.span[t.root].rank + 1
      ensures LeavesHalfFull(t, max) ==> LeavesHalfFull(u, max)
    {
      u := SplitRoot(t, r, q, max);
      SplitRootShaped(t, r, q, max);
      if LeavesHalfFull(t, max) {
        SplitRootFills(t, r, q, max);
      }
    }

    /** The halves of the root get a new root above them, in memory and in the file. */
    method WriteRootAndHalves(node: Node, ret: Node, newParentKey: Key, ghost left: NodeRec, ghost right: NodeRec)
      returns (newRoot: Node)
      requires store.Valid() && store.Room() >= 2 && rankMax == store.max && node != ret
      requires node.loc in store.nodes && ret.loc in store.nodes
      requires Storable(left, rankMax) && Storable(right, rankMax) && node.Carries(left) && ret.Carries(right)
      modifies node, ret, store, store.rm
      ensures store.Valid() && store.data == old(store.data) && store.Room() >= old(store.Room()) - 2
      ensures newRoot.loc !in old(store.nodes) && newRoot.loc != NULL_LOCATION
      ensures node.loc == old(node.loc) && ret.loc == old(ret.loc)
      ensures var q := newRoot.loc;
        store.nodes == old(store.nodes)
          [q := NodeRec(false, NULL_LOCATION, [newParentKey], [node.loc, ret.loc])]
          [node.loc := left.(parent := q)][ret.loc := right.(parent := q)]
    {
      newRoot := new Node(null, NULL_LOCATION, false, [newParentKey], [node.loc, ret.loc]);
      newRoot.loc := store.NewNode(newRoot.Rec());
      node.parent := newRoot;
      assert node.Rec() == left.(parent := newRoot.loc);
      store.WriteNode(node.loc, node.Rec());
      ret.parent := newRoot;
      assert ret.Rec() == right.(parent := newRoot.loc);
      store.WriteNode(ret.loc, ret.Rec());
    }

    /** The last part of splitNode for the root: a new root above the halves. */
    method GrowRoot(node: Node, ret: Node, newParentKey: Key)
      requires store.Valid() && store.Room() >= 2 && rankMax == store.max && rankMin * 2 >= rankMax
      requires node.loc == tree.root && node != ret && CanSplit(tree, node.loc, ret.loc, rankMax)
      requires store.nodes == HalvedNodes(tree.nodes, node.loc, ret.loc, rankMax)
      requires newParentKey == Separator(tree.nodes[node.loc], rankMax)
      requires node.Carries(LeftHalf(tree.nodes[node.loc], rankMax))
      requires ret.Carries(RightHalf(tree.nodes[node.loc], rankMax))
      requires tree.kv.Values <= store.data.Keys
      modifies this, node, ret, store, store.rm
      ensures Valid() && tree.kv == old(tree.kv) && store.data == old(store.data)
      ensures store.Room() >= old(store.Room()) - 2
      ensures tree.root in tree.span && tree.span[tree.root].rank == old(tree.span[tree.root].rank) + 1
      ensures LeavesHalfFull(old(tree), rankMax) ==> LeavesHalfFull(tree, rankMax)
    {
      ghost var t, n := tree, tree.nodes[node.loc];
      var newRoot := WriteRootAndHalves(node, ret, newParentKey, LeftHalf(n, rankMax), RightHalf(n, rankMax));
      root := newRoot.loc;
      tree := RootInFile(t, ret.loc, root, rankMax, old(store.nodes), store.nodes);
    }

    /** The nodes strictly above height `rank`, but for the one at `p`, are in both trees. */
    ghost predicate AboveKept(t: Tree, u: Tree, p: Location, rank: nat) {
      forall l {:trigger Untouched(t, u, l)} | l in t.nodes && l != p && l in t.span && t.span[l].rank > rank ::
        Untouched(t, u, l)
    }

    /** The parent takes the separator and the right half, in memory. */
    method AdoptInParent(node: Node, ret: Node, newParentKey: Key, parent: Node)
      requires node.loc in tree.nodes && node.loc != tree.root && CanSplit(tree, node.loc, ret.loc, rankMax)
      requires tree.nodes[node.loc].parent == parent.loc && parent.loc in tree.nodes
      requires parent.Rec() == tree.nodes[parent.loc] && parent.parent != parent && parent != node && parent != ret
      requires newParentKey == Separator(tree.nodes[node.loc], rankMax)
      modifies this`tree, parent
      ensures Shaped(tree, rankMax, parent.loc) && tree.kv == old(tree.kv) && tree.root == old(tree.root)
      ensures parent.loc == old(parent.loc) && parent.parent == old(parent.parent)
      ensures parent.loc in tree.nodes && parent.Rec() == tree.nodes[parent.loc]
      ensures parent.loc in tree.span && parent.loc in old(tree.span)
          && tree.span[parent.loc] == old(tree.span)[parent.loc]
      ensures tree.root in tree.span && tree.root in old(tree.span)
      ensures tree.span[tree.root].rank == old(tree.span)[tree.root].rank
      ensures SameBut(tree.nodes, HalvedNodes(old(tree).nodes, node.loc, ret.loc, rankMax), parent.loc)
      ensures node.loc in old(tree.span) && AboveKept(old(tree), tree, parent.loc, old(tree.span)[node.loc].rank)
      ensures old(tree.span)[parent.loc].rank == old(tree.span)[node.loc].rank + 1
      ensures LeavesHalfFull(old(tree), rankMax) ==> LeavesHalfFull(tree, rankMax)
    {
      ghost var t, n, r := tree, node.loc, ret.loc;
      ParentIsAbove(t, n, r, rankMax);
      ghost var p, i := ParentLists(t, rankMax, n, n);
      var pos := parent.GetChildPos(node.loc);
      parent.InsertNodeAt(pos, newParentKey, ret);
      tree := Adopted(t, n, r, pos, rankMax);
    }

    /** The same for a parent on a path: it stays a path. */
    method AdoptInMemory(node: Node, ret: Node, newParentKey: Key, parent: Node, ghost top: seq<Node>)
      requires node.loc in tree.nodes && node.loc != tree.root && CanSplit(tree, node.loc, ret.loc, rankMax)
      requires OnPath(tree, top) && parent == top[|top| - 1] && tree.nodes[node.loc].parent == parent.loc
      requires newParentKey == Separator(tree.nodes[node.loc], rankMax)
      requires node !in top && ret !in top
      modifies this`tree, parent
      ensures Shaped(tree, rankMax, parent.loc) && tree.kv == old(tree.kv) && tree.root == old(tree.root)
      ensures parent.loc == old(parent.loc) && parent.loc in tree.nodes
      ensures SameBut(tree.nodes, HalvedNodes(old(tree).nodes, node.loc, ret.loc, rankMax), parent.loc)
      ensures OnPath(tree, top)
      ensures LeavesHalfFull(old(tree), rankMax) ==> LeavesHalfFull(tree, rankMax)
    {
      ghost var t := tree;
      assert AsStored(t, top, |top| - 1) && (|top| > 1 ==> AsStored(t, top, |top| - 2));
      AdoptInParent(node, ret, newParentKey, parent);
      forall k | 0 <= k < |top| ensures AsStored(tree, top, k) {
        assert old(AsStored(tree, top, k));
        assert k < |top| - 1 ==> Untouched(t, tree, top[k].loc);
      }
    }

    /** splitNode for the root: it grows a new root. */
    method SplitRootNode(node: Node)
      requires Unwritten(node.loc) && node.loc in tree.nodes && node.Rec() == tree.nodes[node.loc]
      requires Overfull(tree.nodes[node.loc], rankMax) && node.loc == tree.root && node.parent == null
      requires store.Room() >= 4
      modifies this, node, store, store.rm
      ensures Valid() && tree.kv == old(tree.kv) && store.data == old(store.data)
      ensures store.Room() >= old(store.Room()) - 4
      ensures LeavesHalfFull(old(tree), rankMax) ==> LeavesHalfFull(tree, rankMax)
    {
      var newParentKey := node.keys[rankMax / 2];
      MovedInTree(tree, node.loc, rankMax);
      var ret := CutInHalf(node, tree.nodes);
      GrowRoot(node, ret, newParentKey);
    }

    /** splitNode below the root, up to the point where the parent holds the separator in memory. */
    method SplitBelowRoot(node: Node, parent: Node, ghost top: seq<Node>)
      requires Unwritten(node.loc) && node.loc in tree.nodes && node.Rec() == tree.nodes[node.loc]
      requires Overfull(tree.nodes[node.loc], rankMax) && node.loc != tree.root && node.parent == parent
      requires OnPath(tree, top) && parent == top[|top| - 1] && node !in top
      requires store.Room() >= 2
      modifies this, node, parent, store, store.rm
      ensures Unwritten(parent.loc) && parent.loc in tree.nodes && OnPath(tree, top)
      ensures tree.kv == old(tree.kv) && store.data == old(store.data)
      ensures store.Room() >= old(store.Room()) - 2
      ensures LeavesHalfFull(old(tree), rankMax) ==> LeavesHalfFull(tree, rankMax)
    {
      MovedInTree(tree, node.loc, rankMax);
      var newParentKey := node.keys[rankMax / 2];
      var ret := CutInHalf(node, tree.nodes);
      AdoptInMemory(node, ret, newParentKey, parent, top);
    }

    /**
     splitNode: cut an overfull node in two, and give the separator to its parent, which is split in turn if that
     makes it overfull; a root grows a new root. The file then holds a tree with the same bindings, at most one level
     higher.
     */
    method SplitNode(node: Node, ghost path: seq<Node>)
      requires Unwritten(node.loc) && OnPath(tree, path) && node == path[|path| - 1]
      requires node.loc in tree.nodes && Overfull(tree.nodes[node.loc], rankMax)
      requires store.Room() >= 2 * |path| + 2
      modifies this, path, store, store.rm
      ensures Valid() && tree.kv == old(tree.kv) && store.data == old(store.data)
      ensures store.Room() >= old(store.Room()) - 2 * |path| - 2
      ensures LeavesHalfFull(old(tree), rankMax) ==> LeavesHalfFull(tree, rankMax)
      decreases |path|, 0
    {
      assert AsStored(tree, path, |path| - 1);
      if node.parent == null {
        SplitRootNode(node);
      } else {
        var parent := node.parent;
        PathAbove(tree, path);
        SplitBelowRoot(node, parent, path[..|path| - 1]);
        WriteOrSplit(parent, path[..|path| - 1]);
      }
    }

    /** After a change of `node` in memory: write it back, or split it if it is over capacity. */
    method WriteOrSplit(node: Node, ghost path: seq<Node>)
      requires Unwritten(node.loc) && OnPath(tree, path) && node == path[|path| - 1]
      requires node.loc in tree.nodes
      requires store.Room() >= 2 * |path| + 2
      modifies this, path, store, store.rm
      ensures Valid() && tree.kv == old(tree.kv) && store.data == old(store.data)
      ensures store.Room() >= old(store.Room()) - 2 * |path| - 2
      ensures LeavesHalfFull(old(tree), rankMax) ==> LeavesHalfFull(tree, rankMax)
      decreases |path|, 1
    {
      assert AsStored(tree, path, |path| - 1) && LocalOk(tree, node.loc, rankMax, node.loc);
      if |node.keys| >= rankMax {
        SplitNode(node, path);
      } else {
        FitsIsGood(tree, rankMax, node.loc);
        store.WriteNode(node.loc, node.Rec());
      }
    }

    // ---------- insert ----------

    /** The number of levels; a path from the root to a leaf has this many nodes. */
    ghost function Height(): nat
      reads this
    {
      if tree.root in tree.span then tree.span[tree.root].rank + 1 else 0
    }

    /** A path to a leaf visits every level. */
    lemma LeafPath(path: seq<Node>)
      requires Valid() && OnPath(tree, path) && path[|path| - 1].isLeaf
      ensures |path| == Height() && path[|path| - 1].loc in tree.nodes
      ensures LocalOkLeaf(tree, path[|path| - 1].loc, rankMax)
      ensures path[|path| - 1].Rec() == tree.nodes[path[|path| - 1].loc]
    {
      assert AsStored(tree, path, |path| - 1);
      assert LocalOk(tree, path[|path| - 1].loc, rankMax, NULL_LOCATION);
    }

    /** insertAsRoot: the first binding of an empty tree. */
    method InsertAsRoot(key: Key, data: seq<byte>) returns (ghost d: Location)
      requires Valid() && root == NULL_LOCATION && FitsPage(|data|) && store.Room() >= 4
      modifies this, store, store.rm
      ensures Valid() && d !in old(store.data) && store.data == old(store.data)[d := data]
      ensures tree.kv == map[key := d]
      ensures store.Room() >= old(store.Room()) - 4
      ensures LeavesHalfFull(tree, rankMax)
    {
      var dataLoc := store.NewData(data);
      var node := new Node(null, NULL_LOCATION, true, [key], [dataLoc]);
      var rootLoc := store.NewNode(node.Rec());
      FirstRootGood(rootLoc, key, dataLoc, rankMax);
      tree := FirstRoot(rootLoc, key, dataLoc);
      root := rootLoc;
      assert HalfFull(tree, rankMax, root);
      d := dataLoc;
    }

    /** The leaf takes the new key, in memory. */
    method InsertInLeaf(node: Node, at: nat, key: Key, dataLoc: Location, ghost path: seq<Node>)
      requires Valid() && OnPath(tree, path) && node == path[|path| - 1] && node.isLeaf
      requires node.loc in tree.nodes && Within(key, tree.span[node.loc])
      requires Belongs(node.keys, at, key) && at <= |node.children|
      requires dataLoc in store.data && dataLoc !in tree.kv.Values
      modifies this`tree, node
      ensures Unwritten(node.loc) && OnPath(tree, path) && node.loc in tree.nodes
      ensures tree.kv == old(tree.kv)[key := dataLoc]
      ensures LeavesHalfFull(old(tree), rankMax) ==> LeavesHalfFull(tree, rankMax)
    {
      LeafPath(path);
      assert AsStored(tree, path, |path| - 1);
      if |path| > 1 {
        PathAbove(tree, path);
      }
      ghost var t := tree;
      LeafInsertShaped(t, rankMax, node.loc, at, key, dataLoc);
      node.InsertLocDataInLeafNode(at, key, dataLoc);
      tree := LeafInsert(t, node.loc, at, key, dataLoc);
      if LeavesHalfFull(t, rankMax) {
        LeafInsertFills(t, rankMax, node.loc, at, key, dataLoc);
      }
      forall i | 0 <= i < |path| ensures AsStored(tree, path, i) {
        assert old(AsStored(tree, path, i));
      }
    }

    /** insertDataFrom: false is the source's KeyDuplicated. */
    method InsertDataFrom(node: Node, key: Key, data: seq<byte>) returns (ok: bool, ghost d: Location)
      requires Valid() && OnPath(tree, [node]) && FitsPage(|data|) && store.Room() >= 2 * Height() + 4
      modifies this, store, store.rm, node
      ensures Valid() && (ok <==> key !in old(tree.kv))
      ensures !ok ==> tree == old(tree) && store.data == old(store.data)
      ensures ok ==> d !in old(store.data) && store.data == old(store.data)[d := data]
      ensures ok ==> tree.kv == old(tree.kv)[key := d]
      ensures store.Room() >= old(store.Room()) - 2 * old(Height()) - 4
      ensures LeavesHalfFull(old(tree), rankMax) ==> LeavesHalfFull(tree, rankMax)
    {
      assert AsStored(tree, [node], 0) && LocalOk(tree, root, rankMax, NULL_LOCATION);
      ghost var path;
      var target, at, found;
      target, at, found, path := SearchNode(node, key, [node]);
      if found {
        return false, NULL_LOCATION;
      }
      LeafPath(path);
      forall i | 0 <= i < |path| ensures path[i] == node || fresh(path[i]) {
        assert path[i] in path;
      }
      assert target in path;
      var loc := store.NewData(data);
      InsertInLeaf(target, at, key, loc, path);
      WriteOrSplit(target, path);
      return true, loc;
    }

    /**
     insert: an absent key is bound, through any chain of splits, and every other binding stays; for a present key the
     source throws KeyDuplicated, and nothing changes.
     */
    method Insert(key: Key, data: seq<byte>) returns (ok: bool, ghost d: Location)
      requires Valid() && FitsPage(|data|) && store.Room() >= 2 * Height() + 4
      modifies this, store, store.rm
      ensures Valid() && (ok <==> key !in old(Contents()))
      ensures Contents() == if ok then old(Contents())[key := data] else old(Contents())
      ensures !ok ==> tree == old(tree) && store.data == old(store.data)
      ensures ok ==> d !in old(store.data) && store.data == old(store.data)[d := data]
      ensures ok ==> tree.kv == old(tree.kv)[key := d]
      ensures store.Room() >= old(store.Room()) - 2 * old(Height()) - 4
      ensures LeavesHalfFull(old(tree), rankMax) ==> LeavesHalfFull(tree, rankMax)
    {
      ghost var kv, before := tree.kv, store.data;
      var r := GetRoot();
      if r == null {
        d := InsertAsRoot(key, data);
        ok := true;
      } else {
        ok, d := InsertDataFrom(r, key, data);
      }
      if ok {
        BindNew(kv, before, key, d, data);
      }
    }

    // ---------- update ----------

    /** The new location of a data record is written to its leaf. */
    method Redirect(target: Node, at: nat, newLoc: Location, ghost path: seq<Node>)
      requires store.Valid() && rankMax == store.max && rankMin * 2 >= rankMax
      requires Good(tree, rankMax) && tree.root == root && store.nodes == tree.nodes
      requires OnPath(tree, path) && target == path[|path| - 1] && target.isLeaf
      requires at < |target.keys| && at < |target.children|
      requires newLoc in store.data && (tree.kv - {target.keys[at]}).Values <= store.data.Keys
      requires newLoc !in (tree.kv - {target.keys[at]}).Values
      modifies this`tree, target, store, store.rm
      ensures Valid() && store.data == old(store.data) && store.Room() == old(store.Room())
      ensures tree.kv == old(tree.kv)[old(target.keys)[at] := newLoc]
      ensures LeavesHalfFull(old(tree), rankMax) ==> LeavesHalfFull(tree, rankMax)
    {
      assert AsStored(tree, path, |path| - 1);
      assert LocalOk(tree, target.loc, rankMax, NULL_LOCATION);
      ghost var key := target.keys[at];
      RelocateGood(tree, rankMax, target.loc, at, newLoc);
      if newLoc != target.children[at] {
        target.children := target.children[at := newLoc];
        store.WriteNode(target.loc, target.Rec());
      } else {
        assert target.children[at := newLoc] == target.children;
        assert Relocate(tree, target.loc, at, newLoc).nodes == tree.nodes;
      }
      ghost var was := tree;
      tree := Relocate(tree, target.loc, at, newLoc);
      if LeavesHalfFull(was, rankMax) {
        RelocateFills(was, rankMax, target.loc, at, newLoc);
      }
      forall k | k in tree.kv ensures tree.kv[k] in store.data {
        assert k != key ==> k in was.kv - {key} && (was.kv - {key})[k] in (was.kv - {key}).Values;
      }
    }

    /** The data of the other keys is where it was, and none of it is at the new location. */
    lemma OthersInPlace(kv: map<Key, Location>, key: Key, data: map<Location, seq<byte>>, newLoc: Location,
                        d: seq<byte>)
      requires Injective(kv) && key in kv && kv.Values <= data.Keys && newLoc !in data - {kv[key]}
      ensures var after := (data - {kv[key]})[newLoc := d];
        && (kv - {key}).Values <= after.Keys && newLoc !in (kv - {key}).Values
        && forall k | k in kv && k != key :: kv[k] in data && kv[k] in after && after[kv[k]] == data[kv[k]]
    {
      forall k | k in kv ensures kv[k] in data && (k != key ==> kv[k] != kv[key]) {
        assert kv[k] in kv.Values && Apart(kv, key, k);
      }
    }

    /** The second half of update: store the changed data, and its location if it moved. */
    method StoreData(target: Node, at: nat, record: seq<byte>, ghost path: seq<Node>) returns (ghost newLoc: Location)
      requires Valid() && OnPath(tree, path) && target == path[|path| - 1] && target.isLeaf
      requires at < |target.keys| && at < |target.children| && FitsPage(|record|) && store.Room() >= 2
      modifies this`tree, target, store, store.rm
      ensures old(target.keys)[at] in old(tree.kv)
      ensures var key := old(target.keys)[at]; var dataLoc := old(tree.kv)[key];
        && Valid()
        && newLoc !in old(store.data) - {dataLoc}
        && store.data == (old(store.data) - {dataLoc})[newLoc := record]
        && tree.kv == old(tree.kv)[key := newLoc]
      ensures Contents() == old(Contents())[old(target.keys)[at] := record]
      ensures store.Room() >= old(store.Room()) - 2
      ensures LeavesHalfFull(old(tree), rankMax) ==> LeavesHalfFull(tree, rankMax)
    {
      LeafPath(path);
      ghost var key := target.keys[at];
      assert LeafOk(tree, target.loc) && tree.kv[key] == target.children[at];
      assert tree.kv[key] in tree.kv.Values;
      ghost var data, kv := store.data, tree.kv;
      var moved := store.ReplaceData(target.children[at], record);
      OthersInPlace(kv, key, data, moved, record);
      BindAnew(kv, data, key, moved, record);
      Redirect(target, at, moved, path);
      newLoc := moved;
    }

    /**
     update with a callback that does not touch the file: the data of `key` is replaced if the callback says that it
     changed. False is the source's KeyNotFound.
     */
    method Update(key: Key, callback: seq<byte> -> (bool, seq<byte>)) returns (found: bool)
      requires Valid() && store.Room() >= 2
      requires key in Contents() && callback(Contents()[key]).0 ==> FitsPage(|callback(Contents()[key]).1|)
      modifies this, store, store.rm
      ensures Valid() && (found <==> key in old(Contents()))
      ensures Contents() ==
        if found && callback(old(Contents())[key]).0
        then old(Contents())[key := callback(old(Contents())[key]).1]
        else old(Contents())
      ensures LeavesHalfFull(old(tree), rankMax) ==> LeavesHalfFull(tree, rankMax)
    {
      ghost var path;
      var target, at, record;
      target, at, record, path := FindData(key);
      found := target != null;
      if target != null {
        var (changed, newRecord) := callback(record);
        if changed {
          ghost var l := StoreData(target, at, newRecord, path);
        }
      }
    }

    /** updateNoResize: the data of `key` is overwritten in place. False is the source's KeyNotFound. */
    method UpdateNoResize(key: Key, callback: seq<byte> -> (bool, seq<byte>)) returns (found: bool)
      requires Valid()
      requires key in Contents() && callback(Contents()[key]).0 ==> |callback(Contents()[key]).1| == |Contents()[key]|
      modifies store, store.rm
      ensures Valid() && (found <==> key in old(Contents()))
      ensures tree == old(tree)
      ensures Contents() ==
        if found && callback(old(Contents())[key]).0
        then old(Contents())[key := callback(old(Contents())[key]).1]
        else old(Contents())
    {
      ghost var path;
      var target, at, record;
      target, at, record, path := FindData(key);
      found := target != null;
      if target != null {
        var (changed, newRecord) := callback(record);
        if changed {
          forall k | k in tree.kv && k != key ensures tree.kv[k] != tree.kv[key] {
            assert Apart(tree.kv, key, k);
          }
          store.OverwriteData(target.children[at], newRecord);
        }
      }
    }

    // ---------- remove ----------

    /** deleteData: the key leaves its leaf, in memory and in the file, and its data record is freed. */
    method DeleteData(node: Node, key: Key) returns (index: nat)
      requires store.Valid() && node.loc in store.nodes && rankMax == store.max
      requires node.isLeaf && key in node.keys && |node.children| == |node.keys| < rankMax
      requires forall i :: 0 <= i < |node.children| ==> node.children[i] in store.data
      modifies node, store, store.rm
      ensures store.Valid() && store.Room() == old(store.Room())
      ensures index < |old(node.keys)| && index < |old(node.children)| && old(node.keys)[index] == key
      ensures node.parent == old(node.parent) && node.loc == old(node.loc) && node.isLeaf
      ensures node.keys == EraseAt(old(node.keys), index) && node.children == EraseAt(old(node.children), index)
      ensures store.data == old(store.data) - {old(node.children)[index]}
      ensures store.nodes == old(store.nodes)[node.loc := node.Rec()]
    {
      index := node.FindKey(key);
      store.DeleteData(node.children[index]);
      node.keys := node.keys[..index] + node.keys[index + 1..];
      node.children := node.children[..index] + node.children[index + 1..];
      store.WriteNode(node.loc, node.Rec());
    }

    /** deleteChild: the parent stops listing `child`, in memory and in the file. */
    method DeleteChild(parent: Node, child: Location) returns (index: nat)
      requires store.Valid() && parent.loc in store.nodes && rankMax == store.max
      requires !parent.isLeaf && child in parent.children && 1 <= |parent.keys| < rankMax
      requires |parent.children| == |parent.keys| + 1
      modifies parent, store, store.rm
      ensures store.Valid() && store.Room() == old(store.Room()) && store.data == old(store.data)
      ensures index < |old(parent.children)| && old(parent.children)[index] == child
      ensures store.nodes == old(store.nodes)[parent.loc := Disown(old(parent.Rec()), index)]
      ensures parent.loc == old(parent.loc) && parent.children == EraseAt(old(parent.children), index)
      ensures parent.keys == EraseAt(old(parent.keys), if index == 0 then 0 else index - 1)
    {
      index := parent.GetChildPos(child);
      if index == 0 {
        parent.keys := parent.keys[1..];
        parent.children := parent.children[1..];
      } else {
        parent.keys := parent.keys[..index - 1] + parent.keys[index..];
        parent.children := parent.children[..index] + parent.children[index + 1..];
      }
      assert parent.Rec() == Disown(old(parent.Rec()), index);
      store.WriteNode(parent.loc, parent.Rec());
    }

    /** Every leaf of the tree lists data records. */
    lemma LeafListsData(l: Location)
      requires Valid() && l in tree.nodes && tree.nodes[l].isLeaf
      ensures LocalOkLeaf(tree, l, rankMax)
      ensures forall i :: 0 <= i < |tree.nodes[l].children| ==> tree.nodes[l].children[i] in store.data
    {
      assert LocalOk(tree, l, rankMax, NULL_LOCATION);
      var n := tree.nodes[l];
      forall i | 0 <= i < |n.children| ensures n.children[i] in store.data {
        assert tree.kv[n.keys[i]] == n.children[i];
        assert tree.kv[n.keys[i]] in tree.kv.Values;
      }
    }

    /** The data of the other keys survives the deletion of one key's data. */
    lemma OthersSurvive(kv: map<Key, Location>, key: Key, data: map<Location, seq<byte>>)
      requires Injective(kv) && key in kv && kv.Values <= data.Keys
      ensures (kv - {key}).Values <= (data - {kv[key]}).Keys
      ensures forall k | k in kv && k != key :: kv[k] in data && kv[k] in data - {kv[key]}
    {
      forall k | k in kv ensures kv[k] in data && (k != key ==> kv[k] != kv[key]) {
        assert kv[k] in kv.Values && Apart(kv, key, k);
      }
    }

    /** The guard of deleteNode: a leaf that becomes empty must be the root or have a parent that can spare it. */
    ghost predicate CanRemove(key: Key)
      reads this
    {
      CanErase(tree, rankMin, key)
    }

    /**
     While nothing was removed, any key can be: the source does not give up on the first removal after any number of
     insertions and updates.
     */
    lemma FirstRemovalWorks(key: Key)
      requires Valid() && LeavesHalfFull(tree, rankMax) && rankMax >= 4 && key in Contents()
      ensures CanRemove(key)
    {
      HalfFullCanErase(tree, rankMax, rankMin, key);
    }

    /** What deleteNode has when it starts: the leaf of `key`, as the file holds it. */
    ghost predicate AtLeaf(target: Node, key: Key, path: seq<Node>)
      reads this, store, store.rm, path, target
    {
      && Valid() && OnPath(tree, path) && target == path[|path| - 1] && target.isLeaf && key in target.keys
    }

    lemma LeafOfKey(target: Node, key: Key, path: seq<Node>)
      requires AtLeaf(target, key, path)
      ensures target.loc in tree.nodes && target.Rec() == tree.nodes[target.loc]
      ensures LocalOkLeaf(tree, target.loc, rankMax)
      ensures |target.children| == |target.keys| < rankMax
      ensures forall i :: 0 <= i < |target.children| ==> target.children[i] in store.data
      ensures key in tree.kv && key in tree.home && tree.home[key] == target.loc
      ensures forall i :: 0 <= i < |target.keys| && target.keys[i] == key ==> target.children[i] == tree.kv[key]
      ensures target.parent == null <==> target.loc == tree.root
    {
      LeafPath(path);
      LeafListsData(target.loc);
      if |path| >= 2 {
        PathAbove(tree, path);
      }
      assert AsStored(tree, path, |path| - 1);
    }

    /** deleteNode on a leaf that keeps a key. */
    method DeleteFromLeaf(target: Node, key: Key, ghost path: seq<Node>)
      requires AtLeaf(target, key, path) && |target.keys| > 1
      modifies this`tree, target, store, store.rm
      ensures Valid() && key in old(tree.kv) && tree.kv == old(tree.kv) - {key}
      ensures store.data == old(store.data) - {old(tree.kv)[key]} && store.Room() == old(store.Room())
      ensures AllKeepChildren(old(store.nodes), store.nodes, rankMin)
    {
      LeafOfKey(target, key, path);
      ghost var t := tree;
      OthersSurvive(t.kv, key, store.data);
      var index := DeleteData(target, key);
      LeafEraseGood(t, rankMax, target.loc, index);
      tree := LeafErase(t, target.loc, index);
    }

    /** deleteNode on the root leaf with the tree's last key. */
    method DeleteLastKey(target: Node, key: Key, ghost path: seq<Node>)
      requires AtLeaf(target, key, path) && |target.keys| == 1 && target.parent == null
      modifies this, target, store, store.rm
      ensures Valid() && key in old(tree.kv) && tree.kv == old(tree.kv) - {key}
      ensures store.data == old(store.data) - {old(tree.kv)[key]} && store.Room() == old(store.Room())
      ensures store.nodes == map[]
    {
      LeafOfKey(target, key, path);
      LastKeyGone(tree, rankMax);
      var index := DeleteData(target, key);
      root := NULL_LOCATION;
      store.DeleteNode(target.loc);
      tree := EMPTY_TREE;
    }

    /** The leaf's only key, its entry in the parent and the leaf itself go from the file. */
    method EraseLeaf(target: Node, key: Key, parent: Node) returns (pos: nat)
      requires store.Valid() && rankMax == store.max && target != parent && target.loc != parent.loc
      requires target.loc in store.nodes && target.isLeaf && target.keys == [key] && |target.children| == 1 < rankMax
      requires target.children[0] in store.data
      requires parent.loc in store.nodes && !parent.isLeaf && target.loc in parent.children
      requires 1 <= |parent.keys| < rankMax && |parent.children| == |parent.keys| + 1
      modifies target, parent, store, store.rm
      ensures store.Valid() && store.Room() == old(store.Room())
      ensures pos < |old(parent.children)| && old(parent.children)[pos] == target.loc == old(target.loc)
      ensures store.data == old(store.data) - {old(target.children)[0]}
      ensures store.nodes == old(store.nodes)[old(parent.loc) := Disown(old(parent.Rec()), pos)] - {old(target.loc)}
    {
      ghost var nodes, l := store.nodes, target.loc;
      var index := DeleteData(target, key);
      pos := DeleteChild(parent, target.loc);
      ghost var emptied := store.nodes;
      store.DeleteNode(target.loc);
      assert forall x :: x in emptied && x != l && x != parent.loc ==> x in nodes && emptied[x] == nodes[x];
    }

    static lemma LeafDropped(t: Tree, l: Location, pos: nat, max: nat) returns (u: Tree)
      requires CanDrop(t, l, pos, max)
      ensures var p := t.nodes[l].parent;
        && Good(u, max) && u.root == t.root && u.kv == t.kv - {t.nodes[l].keys[0]}
        && u.nodes == t.nodes[p := Disown(t.nodes[p], pos)] - {l}
    {
      DropLeafGood(t, l, pos, max);
      u := DropLeaf(t, l, pos);
    }

    /** deleteNode on a leaf with one key whose parent can spare it. */
    method DropEmptyLeaf(target: Node, key: Key, parent: Node, ghost path: seq<Node>)
      requires AtLeaf(target, key, path) && |target.keys| == 1 && |path| >= 2 && parent == path[|path| - 2]
      requires |parent.children| - 1 >= rankMin
      modifies this`tree, target, parent, store, store.rm
      ensures Valid() && key in old(tree.kv) && tree.kv == old(tree.kv) - {key}
      ensures store.data == old(store.data) - {old(tree.kv)[key]} && store.Room() == old(store.Room())
      ensures AllKeepChildren(old(store.nodes), store.nodes, rankMin)
    {
      LeafOfKey(target, key, path);
      PathAbove(tree, path);
      ghost var t, l := tree, target.loc;
      assert AsStored(t, path, |path| - 2);
      ghost var p, i := ParentLists(t, rankMax, NULL_LOCATION, l);
      OthersSurvive(t.kv, key, store.data);
      var pos := EraseLeaf(target, key, parent);
      tree := LeafDropped(t, l, pos, rankMax);
      assert store.nodes == tree.nodes;
    }

    /** A leaf from which the only key was erased, while its parent still lists it. */
    static ghost function Emptied(nodes: map<Location, NodeRec>, l: Location): map<Location, NodeRec>
      requires l in nodes
    {
      nodes[l := nodes[l].(keys := [], children := [])]
    }

    /** deleteNode where the source gives up: the key and its data are gone, the empty leaf is not. */
    method GiveUp(target: Node, key: Key, ghost path: seq<Node>)
      requires AtLeaf(target, key, path) && |target.keys| == 1
      modifies target, store, store.rm
      ensures key in old(tree.kv) && key in tree.home && tree.home[key] in old(store.nodes)
      ensures store.Valid() && store.Room() == old(store.Room())
      ensures store.data == old(store.data) - {old(tree.kv)[key]}
      ensures store.nodes == Emptied(old(store.nodes), tree.home[key])
    {
      LeafOfKey(target, key, path);
      ghost var was := target.Rec();
      var index := DeleteData(target, key);
      assert target.Rec() == was.(keys := [], children := []);
    }

    /** deleteNode: false is where the source's assertion fails, after the key was erased from its leaf. */
    method DeleteNode(target: Node, key: Key, ghost path: seq<Node>) returns (ok: bool)
      requires AtLeaf(target, key, path)
      modifies this, path, store, store.rm
      ensures key in old(tree.kv) && (ok <==> old(CanRemove(key)))
      ensures ok ==> Valid() && tree.kv == old(tree.kv) - {key}
      ensures store.data == old(store.data) - {old(tree.kv)[key]} && store.Room() == old(store.Room())
      ensures !ok ==>
        key in old(tree.home) && old(tree.home)[key] in old(store.nodes)
        && store.nodes == Emptied(old(store.nodes), old(tree.home)[key])
      ensures ok ==> AllKeepChildren(old(store.nodes), store.nodes, rankMin)
      ensures !ok ==> HasToBorrow(old(store.nodes), old(tree.home)[key], key, rankMin)
    {
      LeafOfKey(target, key, path);
      ok := true;
      if |target.keys| > 1 {
        DeleteFromLeaf(target, key, path);
      } else if target.parent == null {
        DeleteLastKey(target, key, path);
      } else {
        assert AsStored(tree, path, |path| - 1);
        PathAbove(tree, path);
        var parent := target.parent;
        assert AsStored(tree, path, |path| - 2);
        if |parent.children| - 1 >= rankMin {
          DropEmptyLeaf(target, key, parent, path);
        } else {
          GiveUp(target, key, path);
          ok := false;
        }
      }
    }

    /**
     remove: the binding of `key` goes, and every other binding stays, exactly when the leaf that would become empty
     is the root or has a parent that can spare it. Otherwise the source gives up after it erased the key, and its
     parent lists an empty leaf. Like the source, it expects a tree that is not empty.
     */
    method Remove(key: Key) returns (result: RemoveResult)
      requires Valid() && root != NULL_LOCATION
      modifies this, store, store.rm
      ensures result == KeyNotFound <==> key !in old(Contents())
      ensures result == Removed <==> key in old(Contents()) && old(CanRemove(key))
      ensures result == Removed ==> Valid() && Contents() == old(Contents()) - {key}
      ensures result == Removed ==> tree.kv == old(tree.kv) - {key}
      ensures result != KeyNotFound ==> key in old(tree.kv) && store.data == old(store.data) - {old(tree.kv)[key]}
      ensures result == AssertionFailed ==>
        key in old(tree.home) && old(tree.home)[key] in old(store.nodes)
        && store.nodes == Emptied(old(store.nodes), old(tree.home)[key])
      ensures result == KeyNotFound ==> Valid() && tree == old(tree) && store.data == old(store.data)
      ensures result == Removed ==> AllKeepChildren(old(store.nodes), store.nodes, rankMin)
      ensures result == AssertionFailed ==> HasToBorrow(old(store.nodes), old(tree.home)[key], key, rankMin)
    {
      ghost var path;
      var target, at;
      target, at, path := Find(key);
      if target == null {
        return KeyNotFound;
      }
      ghost var kv, data := tree.kv, store.data;
      BindLess(kv, data, key);
      var ok := DeleteNode(target, key, path);
      result := if ok then Removed else AssertionFailed;
    }

    // ---------- traversal ----------

    /** traverseLeafNode on a leaf. */
    method TraverseLeaf(node: Node) returns (seen: seq<(Key, seq<byte>)>)
      requires Valid() && node.loc in tree.nodes && node.Rec() == tree.nodes[node.loc] && node.isLeaf
      ensures Shows(Contents(), seen, node.keys)
    {
      LeafListsData(node.loc);
      ghost var c := Contents();
      seen := [];
      for i := 0 to |node.keys|
        invariant Shows(c, seen, node.keys[..i])
      {
        var record := store.ReadData(node.children[i]);
        seen := seen + [(node.keys[i], record)];
      }
      assert node.keys[..|node.keys|] == node.keys;
    }

    lemma ShowsJoin(c: map<Key, seq<byte>>, seen: seq<(Key, seq<byte>)>, keys: seq<Key>,
                    part: seq<(Key, seq<byte>)>, more: seq<Key>)
      requires Shows(c, seen, keys) && Shows(c, part, more)
      ensures Shows(c, seen + part, keys + more)
    {
    }

    /** traverseLeafNode with a callback that only reads: the bindings below `node`, from left to right. */
    method TraverseLeafNode(node: Node) returns (seen: seq<(Key, seq<byte>)>)
      requires Valid() && node.loc in tree.nodes && node.Rec() == tree.nodes[node.loc]
      ensures Shows(Contents(), seen, InOrder(tree, node.loc, tree.span[node.loc].rank))
      decreases tree.span[node.loc].rank
    {
      assert LocalOk(tree, node.loc, rankMax, NULL_LOCATION);
      if node.isLeaf {
        seen := TraverseLeaf(node);
      } else {
        ghost var below, c := tree.span[node.loc].rank - 1, Contents();
        seen := [];
        for i := 0 to |node.children|
          invariant Shows(c, seen, InOrderOf(tree, node.children[..i], below))
        {
          assert ChildOk(tree, node.loc, i);
          var child := ParseNodeFromPage(node, node.children[i]);
          var part := TraverseLeafNode(child);
          assert node.children[..i + 1][..i] == node.children[..i];
          ShowsJoin(c, seen, InOrderOf(tree, node.children[..i], below), part, InOrder(tree, node.children[i], below));
          seen := seen + part;
        }
        assert node.children[..|node.children|] == node.children;
      }
    }

    /** A walk that shows sorted keys, all of them, shows every binding once. */
    lemma ShowsAll(c: map<Key, seq<byte>>, seen: seq<(Key, seq<byte>)>, keys: seq<Key>)
      requires Shows(c, seen, keys) && Sorted(keys) && forall k: Key :: k in keys <==> k in c
      ensures EveryBindingOnce(c, seen)
    {
      forall k | k in c ensures (k, c[k]) in seen {
        var i :| 0 <= i < |keys| && keys[i] == k;
        assert seen[i] == (k, c[k]);
      }
    }

    /** traverse: every binding once, in strictly increasing order of the keys. */
    method Traverse() returns (seen: seq<(Key, seq<byte>)>)
      requires Valid() && root != NULL_LOCATION
      ensures EveryBindingOnce(Contents(), seen) && |seen| == |Contents()|
    {
      var r := GetRoot();
      assert AsStored(tree, [r as Node], 0);
      seen := TraverseLeafNode(r);
      AllKeysExact(tree, rankMax);
      ghost var c := Contents();
      assert c.Keys == tree.kv.Keys;
      assert |c| == |c.Keys| && |tree.kv| == |tree.kv.Keys|;
      ShowsAll(c, seen, AllKeys(tree));
    }

    /**
     The parent pointers in the file are right: every child that a stored node lists names that node as its parent, and
     every stored node but the root is listed by the node that it names. So the check on reading a child never fails.
     */
    lemma StoredParents()
      requires Valid()
      ensures forall p, i | p in store.nodes && !store.nodes[p].isLeaf && 0 <= i < |store.nodes[p].children| ::
                var c := store.nodes[p].children[i]; c in store.nodes && store.nodes[c].parent == p
      ensures forall l | l in store.nodes && l != root ::
                var p := store.nodes[l].parent;
                p in store.nodes && !store.nodes[p].isLeaf && l in store.nodes[p].children
      ensures root in store.nodes ==> store.nodes[root].parent == NULL_LOCATION
    {
      forall p, i | p in tree.nodes && !tree.nodes[p].isLeaf && 0 <= i < |tree.nodes[p].children|
        ensures var c := tree.nodes[p].children[i]; c in tree.nodes && tree.nodes[c].parent == p
      {
        assert LocalOk(tree, p, rankMax, NULL_LOCATION) && ChildOk(tree, p, i);
      }
      forall l | l in tree.nodes && l != root
        ensures var p := tree.nodes[l].parent; p in tree.nodes && !tree.nodes[p].isLeaf && l in tree.nodes[p].children
      {
        var p, i := ParentLists(tree, rankMax, NULL_LOCATION, l);
      }
      assert root in tree.nodes ==> LocalOk(tree, root, rankMax, NULL_LOCATION);
    }

    /** A tall tree is full: the number of bindings grows with ceil(BRankMax / 2) per level. */
    lemma TallTreesHoldMuch()
      requires Valid() && Height() >= 2
      ensures |Contents()| >= 2 * Pow((rankMax + 1) / 2, Height() - 2)
    {
      TallTreesAreFull(tree, rankMax, Height());
      assert Contents().Keys == tree.kv.Keys;
      assert |Contents()| == |Contents().Keys| && |tree.kv| == |tree.kv.Keys|;
    }
  }
}
