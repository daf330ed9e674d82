/**
 The B+ tree as it lies on the record store: a flat heap of node records addressed by location, with the invariants
 stated node by node. `span` is bookkeeping that exists only in proofs: the height of every node above the leaves, and
 the interval of keys its subtree may hold.
 */
module TreeShape {
  import opened Locations

  /** KeyT of the index trees: an unsigned 64-bit hash value. */
  type Key = k: int | 0 <= k < 0x1_0000_0000_0000_0000

  /** What one stored node holds. In a leaf, `children` are the locations of the data records. */
  datatype NodeRec = NodeRec(isLeaf: bool, parent: Location, keys: seq<Key>, children: seq<Location>)

  /** Height above the leaves, and the half-open key interval [lo, hi) of a subtree. */
  datatype Span = Span(rank: nat, lo: Option<Key>, hi: Option<Key>)

  /**
   The whole tree. `kv` maps every key to the location of its data record, and `home` to the leaf that holds it.
   The empty tree has the null location as its root.
   */
  datatype Tree = Tree(
    root: Location,
    nodes: map<Location, NodeRec>,
    span: map<Location, Span>,
    kv: map<Key, Location>,
    home: map<Key, Location>)

  const EMPTY_TREE: Tree := Tree(NULL_LOCATION, map[], map[], map[], map[])

  ghost predicate Sorted(keys: seq<Key>) {
    forall i, j :: 0 <= i < j < |keys| ==> keys[i] < keys[j]
  }

  ghost predicate Within(k: Key, s: Span) {
    && (s.lo.Some? ==> s.lo.value <= k)
    && (s.hi.Some? ==> k < s.hi.value)
  }

  /** The span of child `i` of a node: between the separators on its two sides. */
  ghost function ChildSpan(n: NodeRec, s: Span, i: nat): Span
    requires i <= |n.keys| && s.rank > 0
  {
    Span(s.rank - 1,
         if i == 0 then s.lo else Some(n.keys[i - 1]),
         if i == |n.keys| then s.hi else Some(n.keys[i]))
  }

  /** What holds of one node on its own, when it may hold up to `cap` keys. */
  ghost predicate NodeOk(n: NodeRec, s: Span, isRoot: bool, max: nat, cap: int) {
    && |n.children| == |n.keys| + (if n.isLeaf then 0 else 1)
    && 1 <= |n.keys| <= cap
    && Sorted(n.keys)
    && (forall i :: 0 <= i < |n.keys| ==> Within(n.keys[i], s))
    && (n.isLeaf <==> s.rank == 0)
    && (!n.isLeaf && !isRoot ==> |n.children| >= (max + 1) / 2)
  }

  /** Child `i` of an internal node exists, points back to it, and covers exactly its interval. */
  ghost predicate ChildOk(t: Tree, l: Location, i: nat)
    requires l in t.nodes && l in t.span && t.span[l].rank > 0
    requires i <= |t.nodes[l].keys| && i < |t.nodes[l].children|
  {
    var c := t.nodes[l].children[i];
    && c in t.nodes && c in t.span
    && c != t.root
    && t.nodes[c].parent == l
    && t.span[c] == ChildSpan(t.nodes[l], t.span[l], i)
  }

  ghost predicate ChildrenOk(t: Tree, l: Location)
    requires l in t.nodes && l in t.span
  {
    var n := t.nodes[l];
    t.span[l].rank > 0 ==>
      |n.children| == |n.keys| + 1 && forall i :: 0 <= i < |n.children| ==> ChildOk(t, l, i)
  }

  /** Every node but the root is listed by the internal node its parent pointer names. */
  ghost predicate ParentOk(t: Tree, l: Location)
    requires l in t.nodes && l in t.span
  {
    if l == t.root then
      t.nodes[l].parent == NULL_LOCATION && t.span[l].lo == None && t.span[l].hi == None
    else
      var p := t.nodes[l].parent;
      && p in t.nodes && p in t.span
      && t.span[p].rank > 0
      && l in t.nodes[p].children
  }

  /** A leaf is the home of its keys, and lists the locations of their data. */
  ghost predicate LeafOk(t: Tree, l: Location)
    requires l in t.nodes
  {
    var n := t.nodes[l];
    n.isLeaf ==> forall i :: 0 <= i < |n.keys| && i < |n.children| ==>
      && n.keys[i] in t.kv && n.keys[i] in t.home
      && t.kv[n.keys[i]] == n.children[i]
      && t.home[n.keys[i]] == l
  }

  ghost predicate HomeOk(t: Tree, k: Key)
    requires k in t.home
  {
    && t.home[k] in t.nodes
    && t.nodes[t.home[k]].isLeaf
    && k in t.nodes[t.home[k]].keys
  }

  /** Two keys are bound to two locations. */
  ghost predicate Apart(kv: map<Key, Location>, j: Key, k: Key) {
    j in kv && k in kv && j != k ==> kv[j] != kv[k]
  }

  ghost predicate Injective(kv: map<Key, Location>) {
    forall j, k {:trigger Apart(kv, j, k)} :: Apart(kv, j, k)
  }

  /** No two keys share a data record, and every bound key lives in a leaf. */
  ghost predicate DataOk(t: Tree) {
    && t.kv.Keys == t.home.Keys
    && (forall k {:trigger HomeOk(t, k)} | k in t.home :: HomeOk(t, k))
    && Injective(t.kv)
  }

  /**
   Everything the invariant says about the node at `l`. The node `over` may be one key over capacity, because an
   insertion into it has not been split yet.
   */
  ghost predicate LocalOk(t: Tree, l: Location, max: nat, over: Location)
    requires l in t.nodes && l in t.span
  {
    && NodeOk(t.nodes[l], t.span[l], l == t.root, max, if l == over then max else max - 1)
    && ChildrenOk(t, l)
    && ParentOk(t, l)
    && LeafOk(t, l)
  }

  /** The trigger leaves it to each proof to say at which nodes it needs the invariant. */
  ghost predicate NodesOk(t: Tree, max: nat, over: Location)
    requires t.nodes.Keys == t.span.Keys
  {
    forall l {:trigger LocalOk(t, l, max, over)} | l in t.nodes :: LocalOk(t, l, max, over)
  }

  ghost predicate RankOk(t: Tree, l: Location)
    requires l in t.span && t.root in t.span
  {
    t.span[l].rank <= t.span[t.root].rank
  }

  ghost predicate RootOk(t: Tree)
    requires t.nodes.Keys == t.span.Keys
  {
    if t.root == NULL_LOCATION then t.nodes == map[] && t.kv == map[]
    else t.root in t.nodes && forall l {:trigger RankOk(t, l)} | l in t.nodes :: RankOk(t, l)
  }

  /** The invariant of the tree, with at most one node over capacity. */
  ghost predicate Shaped(t: Tree, max: nat, over: Location) {
    && t.nodes.Keys == t.span.Keys
    && NULL_LOCATION !in t.nodes
    && DataOk(t)
    && NodesOk(t, max, over)
    && RootOk(t)
  }

  /** The invariant between operations: `BRankMax` is `max`, and no node is over capacity. */
  ghost predicate Good(t: Tree, max: nat) {
    Shaped(t, max, NULL_LOCATION)
  }

  /** A leaf below the root is at least half full. */
  ghost predicate HalfFull(t: Tree, max: nat, l: Location)
    requires l in t.nodes
  {
    t.nodes[l].isLeaf && l != t.root ==> |t.nodes[l].keys| >= max / 2
  }

  /** No leaf below the root has fewer keys than half the capacity. Only a removal can end this. */
  ghost predicate LeavesHalfFull(t: Tree, max: nat) {
    forall l {:trigger HalfFull(t, max, l)} | l in t.nodes :: HalfFull(t, max, l)
  }

  /** Separators are ordered like the children they divide, so a later child's interval starts where this one ended. */
  lemma ChildrenDisjoint(n: NodeRec, s: Span, i: nat, j: nat, k: Key)
    requires s.rank > 0 && Sorted(n.keys)
    requires i < j <= |n.keys|
    requires Within(k, ChildSpan(n, s, i))
    ensures !Within(k, ChildSpan(n, s, j))
  {
    assert n.keys[i] <= n.keys[j - 1];
  }

  /** A child's interval lies inside its parent's. */
  lemma ChildSpanInside(n: NodeRec, s: Span, i: nat, k: Key)
    requires s.rank > 0 && i <= |n.keys|
    requires forall i :: 0 <= i < |n.keys| ==> Within(n.keys[i], s)
    requires Within(k, ChildSpan(n, s, i))
    ensures Within(k, s)
  {
    if i > 0 {
      assert Within(n.keys[i - 1], s);
    }
    if i < |n.keys| {
      assert Within(n.keys[i], s);
    }
  }

  /** Children of one node are distinct. */
  lemma ChildrenDistinct(t: Tree, max: nat, over: Location, l: Location, i: nat, j: nat)
    requires l in t.nodes && l in t.span && LocalOk(t, l, max, over)
    requires !t.nodes[l].isLeaf && i < j < |t.nodes[l].children|
    ensures t.nodes[l].children[i] != t.nodes[l].children[j]
  {
    assert ChildOk(t, l, i) && ChildOk(t, l, j);
    var keys := t.nodes[l].keys;
    assert Within(keys[i], t.span[l]);
    assert keys[i] <= keys[j - 1];
  }

  /** Where the parent of a node other than the root lists it. */
  lemma ParentLists(t: Tree, max: nat, over: Location, l: Location) returns (p: Location, i: nat)
    requires Shaped(t, max, over)
    requires l in t.nodes && l != t.root
    ensures p == t.nodes[l].parent && p in t.nodes && t.span[p].rank > 0 && !t.nodes[p].isLeaf
    ensures LocalOk(t, p, max, over)
    ensures i < |t.nodes[p].children| && t.nodes[p].children[i] == l
    ensures i <= |t.nodes[p].keys| && ChildOk(t, p, i)
  {
    p := t.nodes[l].parent;
    assert LocalOk(t, l, max, over) && LocalOk(t, p, max, over);
    i :| 0 <= i < |t.nodes[p].children| && t.nodes[p].children[i] == l;
    assert ChildOk(t, p, i);
  }

  /** Only the root has the root's height. */
  lemma BelowRoot(t: Tree, max: nat, over: Location, l: Location)
    requires Shaped(t, max, over)
    requires l in t.nodes && l != t.root
    ensures t.span[l].rank < t.span[t.root].rank
  {
    var p, i := ParentLists(t, max, over, l);
    assert RankOk(t, p);
  }

  /** At each height, a key falls into the interval of one node only. */
  lemma {:induction false} OneNodePerHeight(t: Tree, max: nat, over: Location, a: Location, b: Location, k: Key)
    requires Shaped(t, max, over)
    requires a in t.nodes && b in t.nodes
    requires t.span[a].rank == t.span[b].rank
    requires Within(k, t.span[a]) && Within(k, t.span[b])
    ensures a == b
    decreases t.span[t.root].rank - t.span[a].rank
  {
    if a == t.root {
      if b != t.root {
        BelowRoot(t, max, over, b);
      }
    } else {
      BelowRoot(t, max, over, a);
      var p, i := ParentLists(t, max, over, a);
      var q, j := ParentLists(t, max, over, b);
      ChildSpanInside(t.nodes[p], t.span[p], i, k);
      ChildSpanInside(t.nodes[q], t.span[q], j, k);
      OneNodePerHeight(t, max, over, p, q, k);
      if i < j {
        ChildrenDisjoint(t.nodes[p], t.span[p], i, j, k);
      } else if j < i {
        ChildrenDisjoint(t.nodes[p], t.span[p], j, i, k);
      }
    }
  }

  /** The leaf whose interval holds a key is the only place the key can be: this is what a search relies on. */
  lemma LeafDecides(t: Tree, max: nat, over: Location, l: Location, k: Key)
    requires Shaped(t, max, over)
    requires l in t.nodes && t.nodes[l].isLeaf && Within(k, t.span[l])
    ensures k in t.kv <==> k in t.nodes[l].keys
    ensures k in t.kv ==> t.home[k] == l
  {
    assert LocalOk(t, l, max, over);
    if k in t.kv {
      assert HomeOk(t, k);
      var h := t.home[k];
      assert LocalOk(t, h, max, over);
      OneNodePerHeight(t, max, over, h, l, k);
    }
  }

  /** Insert an element before position `at`, as std::vector::insert does. */
  function InsertAt<T>(s: seq<T>, at: nat, x: T): seq<T>
    requires at <= |s|
  {
    s[..at] + [x] + s[at..]
  }

  /** Erase the element at position `at`, as std::vector::erase does. */
  function EraseAt<T>(s: seq<T>, at: nat): seq<T>
    requires at < |s|
  {
    s[..at] + s[at + 1..]
  }

  lemma InsertAtIndex<T>(s: seq<T>, at: nat, x: T, i: nat)
    requires at <= |s| && i <= |s|
    ensures |InsertAt(s, at, x)| == |s| + 1
    ensures InsertAt(s, at, x)[i] == if i < at then s[i] else if i == at then x else s[i - 1]
  {
  }

  lemma EraseAtIndex<T>(s: seq<T>, at: nat, i: nat)
    requires at < |s| && i + 1 < |s|
    ensures |EraseAt(s, at)| == |s| - 1
    ensures EraseAt(s, at)[i] == s[if i < at then i else i + 1]
  {
  }

  /** A key inserted where it belongs keeps the keys sorted and inside the interval. */
  lemma InsertKeyOk(keys: seq<Key>, at: nat, k: Key, s: Span)
    requires at <= |keys| && Sorted(keys)
    requires at > 0 ==> keys[at - 1] < k
    requires at < |keys| ==> k < keys[at]
    requires Within(k, s) && forall i :: 0 <= i < |keys| ==> Within(keys[i], s)
    ensures Sorted(InsertAt(keys, at, k))
    ensures forall i :: 0 <= i <= |keys| ==> Within(InsertAt(keys, at, k)[i], s)
  {
    var after := InsertAt(keys, at, k);
    forall i, j | 0 <= i < j <= |keys| ensures after[i] < after[j] {
      InsertAtIndex(keys, at, k, i);
      InsertAtIndex(keys, at, k, j);
    }
    forall i | 0 <= i <= |keys| ensures Within(after[i], s) {
      InsertAtIndex(keys, at, k, i);
    }
  }
}
