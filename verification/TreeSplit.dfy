/**
 Splitting an overfull node, as a change of the heap of nodes (src/BTree/BTree.h, splitNode). The right half goes to a
 new record, the moved children are pointed at it, and the separator goes to the parent or into a new root.
 */
module TreeSplit {
  import opened Locations
  import opened TreeShape

  /** A node one key over capacity. */
  ghost predicate Overfull(n: NodeRec, max: nat) {
    && max >= 3
    && |n.keys| == max
    && |n.children| == max + (if n.isLeaf then 0 else 1)
  }

  ghost function Separator(n: NodeRec, max: nat): Key
    requires Overfull(n, max)
  {
    n.keys[max / 2]
  }

  ghost function LeftHalf(n: NodeRec, max: nat): NodeRec
    requires Overfull(n, max)
  {
    n.(keys := n.keys[..max / 2],
       children := n.children[..max / 2 + (if n.isLeaf then 0 else 1)])
  }

  ghost function RightHalf(n: NodeRec, max: nat): NodeRec
    requires Overfull(n, max)
  {
    var from := max / 2 + (if n.isLeaf then 0 else 1);
    n.(keys := n.keys[from..], children := n.children[from..])
  }

  /** The nodes whose parent pointer a split rewrites. */
  ghost function Moved(n: NodeRec, max: nat): seq<Location>
    requires Overfull(n, max)
  {
    if n.isLeaf then [] else RightHalf(n, max).children
  }

  /** Point every node in `locs` at the parent `p`. */
  ghost function Reparent(nodes: map<Location, NodeRec>, locs: seq<Location>, p: Location): map<Location, NodeRec> {
    map l | l in nodes :: if l in locs then nodes[l].(parent := p) else nodes[l]
  }

  /** The heap of nodes after the node at `n` was cut in two. */
  ghost function HalvedNodes(nodes: map<Location, NodeRec>, n: Location, r: Location, max: nat): map<Location, NodeRec>
    requires n in nodes && Overfull(nodes[n], max)
  {
    Reparent(nodes, Moved(nodes[n], max), r)[n := LeftHalf(nodes[n], max)][r := RightHalf(nodes[n], max)]
  }

  /** The node at `n` is cut in two; nobody lists the right half `r` yet. */
  ghost function Halve(t: Tree, n: Location, r: Location, max: nat): Tree
    requires n in t.nodes && n in t.span && Overfull(t.nodes[n], max)
  {
    var node, s := t.nodes[n], t.span[n];
    var right, sep := RightHalf(node, max), Separator(node, max);
    t.(nodes := HalvedNodes(t.nodes, n, r, max),
       span := t.span[n := s.(hi := Some(sep))][r := s.(lo := Some(sep))],
       home := if node.isLeaf then map k | k in t.home :: if k in right.keys then r else t.home[k] else t.home)
  }

  /** insertNodeAt: list the right half `r` after child `pos`. */
  ghost function Adopt(p: NodeRec, pos: nat, sep: Key, r: Location): NodeRec
    requires pos <= |p.keys| && pos < |p.children|
  {
    p.(keys := InsertAt(p.keys, pos, sep), children := InsertAt(p.children, pos + 1, r))
  }

  /** Node `n` is child `pos` of its parent. */
  ghost predicate ChildAt(t: Tree, n: Location, pos: nat) {
    && n in t.nodes && t.nodes[n].parent in t.nodes
    && var p := t.nodes[t.nodes[n].parent];
    && pos <= |p.keys| && pos < |p.children| && p.children[pos] == n
  }

  /** A split below the root: the parent takes the separator. */
  ghost function SplitChild(t: Tree, n: Location, r: Location, pos: nat, max: nat): Tree
    requires n in t.nodes && n in t.span && Overfull(t.nodes[n], max) && ChildAt(t, n, pos)
  {
    var p, h := t.nodes[n].parent, Halve(t, n, r, max);
    h.(nodes := h.nodes[p := Adopt(t.nodes[p], pos, Separator(t.nodes[n], max), r)])
  }

  /** A split of the root: a new root `q` takes the separator and both halves. */
  ghost function SplitRoot(t: Tree, r: Location, q: Location, max: nat): Tree
    requires t.root in t.nodes && t.root in t.span && Overfull(t.nodes[t.root], max)
  {
    var n, node, h := t.root, t.nodes[t.root], Halve(t, t.root, r, max);
    var top := NodeRec(false, NULL_LOCATION, [Separator(node, max)], [n, r]);
    h.(root := q,
       nodes := h.nodes[n := LeftHalf(node, max).(parent := q)][r := RightHalf(node, max).(parent := q)][q := top],
       span := h.span[q := Span(t.span[n].rank + 1, None, None)])
  }

  /** What a split starts from: `n` is one key over capacity, and `r` is a fresh location. */
  ghost predicate CanSplit(t: Tree, n: Location, r: Location, max: nat) {
    && Shaped(t, max, n)
    && n in t.nodes && Overfull(t.nodes[n], max)
    && r !in t.nodes && r != NULL_LOCATION
  }

  /** How the node at `l` looks after either kind of split. The node above `n` may also have taken in a child. */
  ghost predicate Settled(t: Tree, n: Location, r: Location, max: nat, u: Tree, l: Location)
    requires n in t.nodes && n in t.span && Overfull(t.nodes[n], max)
    requires t.nodes.Keys == t.span.Keys
    requires l in t.nodes || l == r
  {
    var node, s, sep := t.nodes[n], t.span[n], Separator(t.nodes[n], max);
    && l in u.nodes && l in u.span
    && if l == n then
         && u.nodes[l] == LeftHalf(node, max).(parent := u.nodes[l].parent)
         && u.span[l] == s.(hi := Some(sep))
       else if l == r then
         && u.nodes[l] == RightHalf(node, max).(parent := u.nodes[l].parent)
         && u.span[l] == s.(lo := Some(sep))
       else
         && u.span[l] == t.span[l]
         && if l == node.parent then
              && u.nodes[l].parent == t.nodes[l].parent
              && u.nodes[l].isLeaf == t.nodes[l].isLeaf
              && forall c | c in t.nodes[l].children :: c in u.nodes[l].children
            else
              u.nodes[l] == if l in Moved(node, max) then t.nodes[l].(parent := r) else t.nodes[l]
  }

  /** What both kinds of split have in common: only the node above `n` is not settled by `Halve`. */
  ghost predicate Splits(t: Tree, n: Location, r: Location, max: nat, u: Tree)
    requires n in t.nodes && Overfull(t.nodes[n], max) && t.nodes.Keys == t.span.Keys
  {
    && u.nodes.Keys == u.span.Keys
    && (forall l {:trigger Settled(t, n, r, max, u, l)} | l in t.nodes || l == r :: Settled(t, n, r, max, u, l))
    && u.kv == t.kv
    && u.home == Halve(t, n, r, max).home
    && (u.root == t.root || (t.root == n && u.root !in t.nodes && u.root != r))
  }

  // ---------- facts about the node that is split ----------

  /** Both halves of an overfull node are within bounds, and the separator falls strictly inside its interval. */
  lemma HalvesOk(n: NodeRec, s: Span, isRoot: bool, max: nat)
    requires Overfull(n, max) && NodeOk(n, s, isRoot, max, max)
    ensures NodeOk(LeftHalf(n, max), s.(hi := Some(Separator(n, max))), false, max, max - 1)
    ensures NodeOk(RightHalf(n, max), s.(lo := Some(Separator(n, max))), false, max, max - 1)
    ensures Within(Separator(n, max), s) && n.keys[0] < Separator(n, max) && Within(n.keys[0], s)
  {
    var left, right, sep := LeftHalf(n, max), RightHalf(n, max), Separator(n, max);
    forall i | 0 <= i < |left.keys| ensures Within(left.keys[i], s.(hi := Some(sep))) {
      assert left.keys[i] == n.keys[i];
    }
    forall i | 0 <= i < |right.keys| ensures Within(right.keys[i], s.(lo := Some(sep))) {
      var j := i + max / 2 + if n.isLeaf then 0 else 1;
      assert right.keys[i] == n.keys[j];
    }
  }

  /** Nothing falls between the two halves. */
  lemma HalvesCover(n: NodeRec, max: nat)
    requires Overfull(n, max)
    ensures forall c | c in n.children :: c in LeftHalf(n, max).children || c in RightHalf(n, max).children
    ensures n.isLeaf ==> forall k | k in n.keys :: k in LeftHalf(n, max).keys || k in RightHalf(n, max).keys
  {
    assert n.children == LeftHalf(n, max).children + RightHalf(n, max).children;
    if n.isLeaf {
      assert n.keys == LeftHalf(n, max).keys + RightHalf(n, max).keys;
    }
  }

  /**
   The cut is in the middle: a leaf's odd key goes right, an internal node's odd child stays left. A leaf's separator is
   the first key of the right half and stays there; an internal node's separator is in neither half.
   */
  lemma HalvesEven(n: NodeRec, max: nat)
    requires Overfull(n, max)
    ensures var left, right, sep := LeftHalf(n, max), RightHalf(n, max), Separator(n, max);
      && left.children + right.children == n.children
      && (if n.isLeaf then |left.children| <= |right.children| <= |left.children| + 1
          else |right.children| <= |left.children| <= |right.children| + 1)
      && (if n.isLeaf then left.keys + right.keys == n.keys && right.keys != [] && sep == right.keys[0]
          else left.keys + [sep] + right.keys == n.keys)
  {
    HalvesCover(n, max);
  }

  /** A split of an internal node leaves the children before the cut pointing at the left half. */
  lemma LeftChildrenStay(t: Tree, n: Location, max: nat, i: nat)
    requires n in t.nodes && n in t.span && LocalOk(t, n, max, n)
    requires Overfull(t.nodes[n], max) && !t.nodes[n].isLeaf && i <= max / 2
    ensures t.nodes[n].children[i] !in Moved(t.nodes[n], max)
  {
    var c := t.nodes[n].children;
    forall j | max / 2 + 1 <= j < |c| ensures c[i] != c[j] {
      ChildrenDistinct(t, max, n, n, i, j);
    }
  }

  /** Only children of `n` are pointed at `r`. */
  lemma MovedWereChildren(t: Tree, n: Location, max: nat, l: Location)
    requires n in t.nodes && n in t.span && Overfull(t.nodes[n], max) && LocalOk(t, n, max, n)
    ensures l in Moved(t.nodes[n], max) ==>
      (l in t.nodes && t.nodes[l].parent == n && l in t.span && t.span[l].rank + 1 == t.span[n].rank && l != t.root)
  {
    if l in Moved(t.nodes[n], max) {
      var j :| max / 2 + 1 <= j < |t.nodes[n].children| && t.nodes[n].children[j] == l;
      assert ChildOk(t, n, j);
    }
  }

  /** The parent is neither of the halves nor one of their children. */
  lemma ParentIsAbove(t: Tree, n: Location, r: Location, max: nat)
    requires CanSplit(t, n, r, max)
    ensures LocalOk(t, n, max, n)
    ensures n == t.root ==> t.nodes[n].parent == NULL_LOCATION
    ensures n != t.root ==>
      (&& t.nodes[n].parent in t.nodes && t.span[t.nodes[n].parent].rank == t.span[n].rank + 1
       && t.nodes[n].parent != n && t.nodes[n].parent != r
       && LocalOk(t, t.nodes[n].parent, max, n))
    ensures t.nodes[n].parent !in Moved(t.nodes[n], max)
  {
    assert LocalOk(t, n, max, n);
    if n != t.root {
      var p, i := ParentLists(t, max, n, n);
    }
    MovedWereChildren(t, n, max, t.nodes[n].parent);
  }

  // ---------- the halves, the nodes below them, and the rest ----------

  lemma LeftChildOk(t: Tree, n: Location, r: Location, max: nat, u: Tree, i: nat)
    requires CanSplit(t, n, r, max) && Splits(t, n, r, max, u)
    requires !t.nodes[n].isLeaf && i <= max / 2
    ensures Settled(t, n, r, max, u, n) && u.span[n].rank > 0 && ChildOk(u, n, i)
  {
    ParentIsAbove(t, n, r, max);
    assert ChildOk(t, n, i);
    LeftChildrenStay(t, n, max, i);
    assert Settled(t, n, r, max, u, n) && Settled(t, n, r, max, u, t.nodes[n].children[i]);
  }

  lemma RightChildOk(t: Tree, n: Location, r: Location, max: nat, u: Tree, i: nat)
    requires CanSplit(t, n, r, max) && Splits(t, n, r, max, u)
    requires !t.nodes[n].isLeaf && i < |RightHalf(t.nodes[n], max).children|
    ensures Settled(t, n, r, max, u, r) && u.span[r].rank > 0 && ChildOk(u, r, i)
  {
    ParentIsAbove(t, n, r, max);
    var c := RightHalf(t.nodes[n], max).children[i];
    assert ChildOk(t, n, max / 2 + 1 + i);
    assert c == t.nodes[n].children[max / 2 + 1 + i];
    assert c in Moved(t.nodes[n], max);
    assert Settled(t, n, r, max, u, r) && Settled(t, n, r, max, u, c);
  }

  lemma LeafHalvesOk(t: Tree, n: Location, r: Location, max: nat, u: Tree)
    requires CanSplit(t, n, r, max) && Splits(t, n, r, max, u)
    ensures Settled(t, n, r, max, u, n) && Settled(t, n, r, max, u, r)
    ensures LeafOk(u, n) && LeafOk(u, r)
  {
    ParentIsAbove(t, n, r, max);
    assert Settled(t, n, r, max, u, n) && Settled(t, n, r, max, u, r);
  }

  /** Both halves are sound nodes, whoever their parent is. */
  lemma HalfNodesOk(t: Tree, n: Location, r: Location, max: nat, u: Tree)
    requires CanSplit(t, n, r, max) && Splits(t, n, r, max, u)
    ensures forall l | l == n || l == r ::
      && l in u.nodes && l in u.span
      && NodeOk(u.nodes[l], u.span[l], false, max, max - 1) && ChildrenOk(u, l) && LeafOk(u, l)
  {
    ParentIsAbove(t, n, r, max);
    HalvesOk(t.nodes[n], t.span[n], n == t.root, max);
    LeafHalvesOk(t, n, r, max, u);
    if !t.nodes[n].isLeaf {
      forall i | 0 <= i < |u.nodes[n].children| ensures ChildOk(u, n, i) {
        LeftChildOk(t, n, r, max, u, i);
      }
      forall i | 0 <= i < |u.nodes[r].children| ensures ChildOk(u, r, i) {
        RightChildOk(t, n, r, max, u, i);
      }
    }
  }

  /** A child of a node that is neither a half nor the parent of the halves. */
  lemma OtherChildOk(t: Tree, n: Location, r: Location, max: nat, u: Tree, l: Location, i: nat)
    requires CanSplit(t, n, r, max) && Splits(t, n, r, max, u)
    requires l in t.nodes && l != n && l != t.nodes[n].parent
    requires t.span[l].rank > 0 && i < |t.nodes[l].children|
    ensures Settled(t, n, r, max, u, l) && i <= |u.nodes[l].keys| && ChildOk(u, l, i)
  {
    assert LocalOk(t, l, max, n) && ChildOk(t, l, i);
    var c := t.nodes[l].children[i];
    ParentIsAbove(t, n, r, max);
    MovedWereChildren(t, n, max, c);
    assert Settled(t, n, r, max, u, l) && Settled(t, n, r, max, u, c);
  }

  lemma OtherNodeOk(t: Tree, n: Location, r: Location, max: nat, u: Tree, over: Location, l: Location)
    requires CanSplit(t, n, r, max) && Splits(t, n, r, max, u)
    requires l in t.nodes && l != n && l != t.nodes[n].parent
    ensures l in u.nodes && l in u.span
    ensures NodeOk(u.nodes[l], u.span[l], l == u.root, max, max - 1) && ChildrenOk(u, l) && LeafOk(u, l)
  {
    assert LocalOk(t, l, max, n) && LocalOk(t, n, max, n);
    assert Settled(t, n, r, max, u, l);
    if t.span[l].rank > 0 {
      forall i | 0 <= i < |u.nodes[l].children| ensures ChildOk(u, l, i) {
        OtherChildOk(t, n, r, max, u, l, i);
      }
    }
  }

  /** Every node but the halves is still listed by the node its parent pointer names. */
  lemma OtherParentOk(t: Tree, n: Location, r: Location, max: nat, u: Tree, l: Location)
    requires CanSplit(t, n, r, max) && Splits(t, n, r, max, u)
    requires l in t.nodes && l != n
    ensures l in u.nodes && l in u.span && ParentOk(u, l)
  {
    ParentIsAbove(t, n, r, max);
    MovedWereChildren(t, n, max, l);
    assert Settled(t, n, r, max, u, l) && Settled(t, n, r, max, u, r) && Settled(t, n, r, max, u, n);
    if l == t.root {
      assert LocalOk(t, l, max, n);
    } else {
      var p, i := ParentLists(t, max, n, l);
      assert Settled(t, n, r, max, u, p);
      if l !in Moved(t.nodes[n], max) && p == n {
        HalvesCover(t.nodes[n], max);
      }
    }
  }

  /** The leaf a key lives in after the split. */
  lemma SplitHomeOk(t: Tree, n: Location, r: Location, max: nat, u: Tree, k: Key)
    requires CanSplit(t, n, r, max) && Splits(t, n, r, max, u)
    requires k in t.home
    ensures k in u.home && HomeOk(u, k)
  {
    ParentIsAbove(t, n, r, max);
    assert HomeOk(t, k);
    var h, node := t.home[k], t.nodes[n];
    assert LocalOk(t, h, max, n);
    assert Settled(t, n, r, max, u, h) && Settled(t, n, r, max, u, r);
    if h == n {
      HalvesCover(node, max);
    }
  }

  /** No data record changes hands in a split. */
  lemma SplitDataOk(t: Tree, n: Location, r: Location, max: nat, u: Tree)
    requires CanSplit(t, n, r, max) && Splits(t, n, r, max, u)
    ensures DataOk(u)
  {
    assert u.home.Keys == t.home.Keys;
    forall k | k in u.home ensures HomeOk(u, k) {
      SplitHomeOk(t, n, r, max, u, k);
    }
  }

  /** Both halves of a leaf are half full, and no other leaf changes. */
  lemma SplitFills(t: Tree, n: Location, r: Location, max: nat, u: Tree)
    requires CanSplit(t, n, r, max) && Splits(t, n, r, max, u) && LeavesHalfFull(t, max)
    requires forall l | l in u.nodes :: l in t.nodes || l == r || !u.nodes[l].isLeaf
    ensures LeavesHalfFull(u, max)
  {
    ParentIsAbove(t, n, r, max);
    forall l | l in u.nodes ensures HalfFull(u, max, l) {
      if l in t.nodes || l == r {
        assert Settled(t, n, r, max, u, l);
        assert l in t.nodes ==> HalfFull(t, max, l);
      }
    }
  }

  // ---------- a split below the root ----------

  /** The parent after it took the separator and the right half. */
  lemma AdoptedNodeOk(t: Tree, n: Location, r: Location, pos: nat, max: nat)
    requires CanSplit(t, n, r, max) && n != t.root && ChildAt(t, n, pos)
    ensures var p := t.nodes[n].parent;
      && p in t.span && t.span[p].rank > 0
      && NodeOk(Adopt(t.nodes[p], pos, Separator(t.nodes[n], max), r), t.span[p], p == t.root, max, max)
  {
    ParentIsAbove(t, n, r, max);
    var p := t.nodes[n].parent;
    var sep := Separator(t.nodes[n], max);
    HalvesOk(t.nodes[n], t.span[n], false, max);
    assert ChildOk(t, p, pos);
    ChildSpanInside(t.nodes[p], t.span[p], pos, sep);
    InsertKeyOk(t.nodes[p].keys, pos, sep, t.span[p]);
  }

  lemma SplitChildSettles(t: Tree, n: Location, r: Location, pos: nat, max: nat, l: Location)
    requires CanSplit(t, n, r, max) && n != t.root && ChildAt(t, n, pos)
    requires l in t.nodes || l == r
    ensures Settled(t, n, r, max, SplitChild(t, n, r, pos, max), l)
  {
    ParentIsAbove(t, n, r, max);
    var p, u := t.nodes[n].parent, SplitChild(t, n, r, pos, max);
    forall c | c in t.nodes[p].children ensures c in u.nodes[p].children {
      var i :| 0 <= i < |t.nodes[p].children| && t.nodes[p].children[i] == c;
      InsertAtIndex(t.nodes[p].children, pos + 1, r, if i <= pos then i else i + 1);
    }
  }

  lemma SplitChildSplits(t: Tree, n: Location, r: Location, pos: nat, max: nat)
    requires CanSplit(t, n, r, max) && n != t.root && ChildAt(t, n, pos)
    ensures Splits(t, n, r, max, SplitChild(t, n, r, pos, max))
  {
    ParentIsAbove(t, n, r, max);
    var u := SplitChild(t, n, r, pos, max);
    forall l | l in t.nodes || l == r ensures Settled(t, n, r, max, u, l) {
      SplitChildSettles(t, n, r, pos, max, l);
    }
  }

  /** The two halves cover the intervals on the two sides of the separator, and are listed side by side. */
  lemma AdoptedHalvesOk(t: Tree, n: Location, r: Location, pos: nat, max: nat)
    requires CanSplit(t, n, r, max) && n != t.root && ChildAt(t, n, pos)
    ensures var u := SplitChild(t, n, r, pos, max); var p := t.nodes[n].parent;
      && p in u.span && u.span[p].rank > 0 && pos + 1 <= |u.nodes[p].keys| && pos + 1 < |u.nodes[p].children|
      && ChildOk(u, p, pos) && ChildOk(u, p, pos + 1)
      && ParentOk(u, n) && ParentOk(u, r)
  {
    ParentIsAbove(t, n, r, max);
    var p, u := t.nodes[n].parent, SplitChild(t, n, r, pos, max);
    assert ChildOk(t, p, pos);
    InsertAtIndex(t.nodes[p].children, pos + 1, r, pos);
    InsertAtIndex(t.nodes[p].children, pos + 1, r, pos + 1);
    assert u.nodes[p].children[pos] == n && u.nodes[p].children[pos + 1] == r;
  }

  /** The intervals of the other children are as they were. */
  lemma AdoptedSpan(p: NodeRec, s: Span, pos: nat, sep: Key, r: Location, j: nat)
    requires s.rank > 0 && |p.children| == |p.keys| + 1 && pos <= |p.keys|
    requires j <= |p.keys| && j != pos
    ensures var i, q := if j < pos then j else j + 1, Adopt(p, pos, sep, r);
      i <= |q.keys| && i < |q.children| && q.children[i] == p.children[j] && ChildSpan(q, s, i) == ChildSpan(p, s, j)
  {
    var i, q := if j < pos then j else j + 1, Adopt(p, pos, sep, r);
    InsertAtIndex(p.children, pos + 1, r, i);
    assert i > 0 ==> q.keys[i - 1] == p.keys[j - 1];
    assert i < |q.keys| ==> q.keys[i] == p.keys[j];
  }

  /** The other children of the parent move over, with their intervals. */
  lemma AdoptedChildOk(t: Tree, n: Location, r: Location, pos: nat, max: nat, j: nat)
    requires CanSplit(t, n, r, max) && n != t.root && ChildAt(t, n, pos)
    requires j < |t.nodes[t.nodes[n].parent].children| && j != pos
    ensures var u := SplitChild(t, n, r, pos, max); var p := t.nodes[n].parent;
      var i := if j < pos then j else j + 1;
      && p in u.span && u.span[p].rank > 0 && i <= |u.nodes[p].keys| && i < |u.nodes[p].children|
      && ChildOk(u, p, i)
  {
    ParentIsAbove(t, n, r, max);
    var p := t.nodes[n].parent;
    assert ChildOk(t, p, j);
    var c := t.nodes[p].children[j];
    AdoptedSpan(t.nodes[p], t.span[p], pos, Separator(t.nodes[n], max), r, j);
    ChildrenDistinct(t, max, n, p, if j < pos then j else pos, if j < pos then pos else j);
    MovedWereChildren(t, n, max, c);
    SplitChildSettles(t, n, r, pos, max, c);
  }

  /** Every child of the parent, one of the halves or not. */
  lemma AdoptedSlotOk(t: Tree, n: Location, r: Location, pos: nat, max: nat, i: nat)
    requires CanSplit(t, n, r, max) && n != t.root && ChildAt(t, n, pos)
    requires i <= |t.nodes[t.nodes[n].parent].children|
    ensures var u := SplitChild(t, n, r, pos, max); var p := t.nodes[n].parent;
      && p in u.span && u.span[p].rank > 0 && i <= |u.nodes[p].keys| && i < |u.nodes[p].children|
      && ChildOk(u, p, i)
  {
    if i == pos || i == pos + 1 {
      AdoptedHalvesOk(t, n, r, pos, max);
    } else {
      AdoptedChildOk(t, n, r, pos, max, if i < pos then i else i - 1);
    }
  }

  lemma AdoptedChildrenOk(t: Tree, n: Location, r: Location, pos: nat, max: nat)
    requires CanSplit(t, n, r, max) && n != t.root && ChildAt(t, n, pos)
    ensures var u := SplitChild(t, n, r, pos, max); var p := t.nodes[n].parent;
      p in u.span && ChildrenOk(u, p)
  {
    ParentIsAbove(t, n, r, max);
    var u, p := SplitChild(t, n, r, pos, max), t.nodes[n].parent;
    AdoptedSlotOk(t, n, r, pos, max, pos);
    assert |u.nodes[p].children| == |t.nodes[p].children| + 1 && |u.nodes[p].keys| == |t.nodes[p].keys| + 1;
    forall i | 0 <= i < |u.nodes[p].children| ensures ChildOk(u, p, i) {
      AdoptedSlotOk(t, n, r, pos, max, i);
    }
  }

  lemma SplitChildLocalOk(t: Tree, n: Location, r: Location, pos: nat, max: nat, l: Location)
    requires CanSplit(t, n, r, max) && n != t.root && ChildAt(t, n, pos)
    requires Splits(t, n, r, max, SplitChild(t, n, r, pos, max))
    requires l in t.nodes || l == r
    ensures var u := SplitChild(t, n, r, pos, max);
      l in u.nodes && l in u.span && LocalOk(u, l, max, t.nodes[n].parent)
  {
    var u, p := SplitChild(t, n, r, pos, max), t.nodes[n].parent;
    assert Settled(t, n, r, max, u, l);
    ParentIsAbove(t, n, r, max);
    if l == n || l == r {
      HalfNodesOk(t, n, r, max, u);
      AdoptedHalvesOk(t, n, r, pos, max);
    } else {
      OtherParentOk(t, n, r, max, u, l);
      if l == p {
        AdoptedNodeOk(t, n, r, pos, max);
        AdoptedChildrenOk(t, n, r, pos, max);
      } else {
        OtherNodeOk(t, n, r, max, u, p, l);
      }
    }
  }

  lemma SplitChildRank(t: Tree, n: Location, r: Location, pos: nat, max: nat, l: Location)
    requires CanSplit(t, n, r, max) && n != t.root && ChildAt(t, n, pos)
    requires l in t.nodes || l == r
    ensures var u := SplitChild(t, n, r, pos, max);
      && u.root in u.span && l in u.span && RankOk(u, l)
      && u.span[l].rank == t.span[if l == r then n else l].rank
  {
    assert RankOk(t, if l == r then n else l);
    ParentIsAbove(t, n, r, max);
    SplitChildSettles(t, n, r, pos, max, l);
    SplitChildSettles(t, n, r, pos, max, t.root);
  }

  lemma SplitChildNodesOk(t: Tree, n: Location, r: Location, pos: nat, max: nat)
    requires CanSplit(t, n, r, max) && n != t.root && ChildAt(t, n, pos)
    ensures var u := SplitChild(t, n, r, pos, max);
      u.nodes.Keys == u.span.Keys && NodesOk(u, max, t.nodes[n].parent) && DataOk(u)
  {
    var u := SplitChild(t, n, r, pos, max);
    SplitChildSplits(t, n, r, pos, max);
    SplitDataOk(t, n, r, max, u);
    forall l | l in u.nodes ensures LocalOk(u, l, max, t.nodes[n].parent) {
      SplitChildLocalOk(t, n, r, pos, max, l);
    }
  }

  lemma SplitChildRootOk(t: Tree, n: Location, r: Location, pos: nat, max: nat)
    requires CanSplit(t, n, r, max) && n != t.root && ChildAt(t, n, pos)
    ensures var u := SplitChild(t, n, r, pos, max);
      && u.nodes.Keys == u.span.Keys == t.nodes.Keys + {r} && RootOk(u)
      && (forall l | l in t.nodes :: u.span[l].rank == t.span[l].rank)
  {
    ParentIsAbove(t, n, r, max);
    var u := SplitChild(t, n, r, pos, max);
    forall l | l in u.nodes ensures RankOk(u, l) && u.span[l].rank == t.span[if l == r then n else l].rank {
      SplitChildRank(t, n, r, pos, max, l);
    }
  }

  /**
   A split below the root gives a tree again, with the same bindings. Only the parent may now be over capacity, and then
   it is split next.
   */
  lemma SplitChildShaped(t: Tree, n: Location, r: Location, pos: nat, max: nat)
    requires CanSplit(t, n, r, max) && n != t.root && ChildAt(t, n, pos)
    ensures var u := SplitChild(t, n, r, pos, max);
      && Shaped(u, max, t.nodes[n].parent)
      && u.kv == t.kv && u.root == t.root
      && u.nodes.Keys == t.nodes.Keys + {r}
      && (forall l | l in t.nodes :: u.span[l].rank == t.span[l].rank)
  {
    SplitChildNodesOk(t, n, r, pos, max);
    SplitChildRootOk(t, n, r, pos, max);
  }

  /** A split below the root leaves every leaf at least half full. */
  lemma SplitChildFills(t: Tree, n: Location, r: Location, pos: nat, max: nat)
    requires CanSplit(t, n, r, max) && n != t.root && ChildAt(t, n, pos) && LeavesHalfFull(t, max)
    ensures LeavesHalfFull(SplitChild(t, n, r, pos, max), max)
  {
    SplitChildRootOk(t, n, r, pos, max);
    SplitChildSplits(t, n, r, pos, max);
    SplitFills(t, n, r, max, SplitChild(t, n, r, pos, max));
  }

  // ---------- a split of the root ----------

  /** What a root split needs: two fresh locations. */
  ghost predicate CanSplitRoot(t: Tree, r: Location, q: Location, max: nat) {
    CanSplit(t, t.root, r, max) && q !in t.nodes && q != r && q != NULL_LOCATION
  }

  lemma SplitRootSplits(t: Tree, r: Location, q: Location, max: nat)
    requires CanSplitRoot(t, r, q, max)
    ensures Splits(t, t.root, r, max, SplitRoot(t, r, q, max))
  {
    ParentIsAbove(t, t.root, r, max);
    var u := SplitRoot(t, r, q, max);
    forall l | l in t.nodes || l == r ensures Settled(t, t.root, r, max, u, l) {
    }
  }

  lemma NewRootOk(t: Tree, r: Location, q: Location, max: nat)
    requires CanSplitRoot(t, r, q, max)
    ensures var u := SplitRoot(t, r, q, max);
      LocalOk(u, q, max, NULL_LOCATION) && ParentOk(u, t.root) && ParentOk(u, r)
  {
    assert LocalOk(t, t.root, max, t.root);
    var u := SplitRoot(t, r, q, max);
    assert ChildOk(u, q, 0) && ChildOk(u, q, 1);
    assert u.nodes[q].children[0] == t.root && u.nodes[q].children[1] == r;
  }

  lemma SplitRootLocalOk(t: Tree, r: Location, q: Location, max: nat, l: Location)
    requires CanSplitRoot(t, r, q, max)
    requires Splits(t, t.root, r, max, SplitRoot(t, r, q, max))
    requires l in t.nodes || l == r || l == q
    ensures var u := SplitRoot(t, r, q, max);
      l in u.nodes && l in u.span && LocalOk(u, l, max, NULL_LOCATION)
  {
    var n, u := t.root, SplitRoot(t, r, q, max);
    NewRootOk(t, r, q, max);
    if l == n || l == r {
      HalfNodesOk(t, n, r, max, u);
    } else if l != q {
      ParentIsAbove(t, n, r, max);
      OtherNodeOk(t, n, r, max, u, NULL_LOCATION, l);
      OtherParentOk(t, n, r, max, u, l);
    }
  }

  lemma SplitRootRank(t: Tree, r: Location, q: Location, max: nat, l: Location)
    requires CanSplitRoot(t, r, q, max) && Splits(t, t.root, r, max, SplitRoot(t, r, q, max))
    requires l in t.nodes || l == r || l == q
    ensures var u := SplitRoot(t, r, q, max); l in u.span && u.root in u.span && RankOk(u, l)
  {
    if l != q {
      assert RankOk(t, if l == r then t.root else l);
      assert Settled(t, t.root, r, max, SplitRoot(t, r, q, max), l);
    }
  }

  lemma SplitRootNodesOk(t: Tree, r: Location, q: Location, max: nat)
    requires CanSplitRoot(t, r, q, max)
    ensures var u := SplitRoot(t, r, q, max);
      && u.nodes.Keys == u.span.Keys == t.nodes.Keys + {r, q} && NodesOk(u, max, NULL_LOCATION) && DataOk(u)
  {
    var u := SplitRoot(t, r, q, max);
    SplitRootSplits(t, r, q, max);
    SplitDataOk(t, t.root, r, max, u);
    forall l | l in u.nodes ensures LocalOk(u, l, max, NULL_LOCATION) {
      SplitRootLocalOk(t, r, q, max, l);
    }
  }

  /** A root split gives a tree again, one level higher, with the same bindings and nothing over capacity. */
  lemma SplitRootShaped(t: Tree, r: Location, q: Location, max: nat)
    requires CanSplitRoot(t, r, q, max)
    ensures var u := SplitRoot(t, r, q, max);
      && Good(u, max)
      && u.kv == t.kv && u.root == q
      && u.nodes.Keys == t.nodes.Keys + {r, q}
      && u.span[q].rank == t.span[t.root].rank + 1
  {
    var u := SplitRoot(t, r, q, max);
    SplitRootSplits(t, r, q, max);
    SplitRootNodesOk(t, r, q, max);
    forall l | l in u.nodes ensures RankOk(u, l) {
      SplitRootRank(t, r, q, max, l);
    }
  }

  /** A split of the root leaves every leaf at least half full. */
  lemma SplitRootFills(t: Tree, r: Location, q: Location, max: nat)
    requires CanSplitRoot(t, r, q, max) && LeavesHalfFull(t, max)
    ensures LeavesHalfFull(SplitRoot(t, r, q, max), max)
  {
    SplitRootShaped(t, r, q, max);
    SplitRootSplits(t, r, q, max);
    SplitFills(t, t.root, r, max, SplitRoot(t, r, q, max));
  }
}
