/**
 What a walk over the leaves sees (src/BTree/BTree.h, traverseLeafNode): every key once, in increasing order; and how
 many keys a tree of a given height must hold.
 */
module TreeOrder {
  import opened Locations
  import opened TreeShape

  /** The keys of the subtree at `l`, of height `rank`, from left to right. */
  ghost function InOrder(t: Tree, l: Location, rank: nat): seq<Key>
    decreases rank, 0
  {
    if l !in t.nodes then []
    else if rank == 0 then t.nodes[l].keys
    else InOrderOf(t, t.nodes[l].children, rank - 1)
  }

  ghost function InOrderOf(t: Tree, cs: seq<Location>, rank: nat): seq<Key>
    decreases rank, 1 + |cs|
  {
    if cs == [] then []
    else InOrderOf(t, cs[..|cs| - 1], rank) + InOrder(t, cs[|cs| - 1], rank)
  }

  /** The keys of a whole tree. */
  ghost function AllKeys(t: Tree): seq<Key> {
    if t.root in t.span then InOrder(t, t.root, t.span[t.root].rank) else []
  }

  /** A walk saw exactly the bound keys of an interval, in order. */
  ghost predicate Exactly(t: Tree, keys: seq<Key>, s: Span) {
    && Sorted(keys)
    && forall k: Key :: k in keys <==> k in t.kv && Within(k, s)
  }

  lemma ExactlyJoins(t: Tree, left: seq<Key>, a: Span, right: seq<Key>, b: Span)
    requires Exactly(t, left, a) && Exactly(t, right, b)
    requires a.hi.Some? && b.lo == a.hi
    requires a.lo.Some? ==> a.lo.value <= a.hi.value
    requires b.hi.Some? ==> b.lo.value <= b.hi.value
    ensures Exactly(t, left + right, Span(a.rank, a.lo, b.hi))
  {
    var keys := left + right;
    forall i | 0 <= i < |left| ensures left[i] < a.hi.value {
      assert left[i] in left;
    }
    forall i | 0 <= i < |right| ensures b.lo.value <= right[i] {
      assert right[i] in right;
    }
  }

  /** The walk over a subtree sees exactly the keys of its interval. */
  lemma {:induction false} InOrderExact(t: Tree, max: nat, l: Location)
    requires Good(t, max) && l in t.nodes
    ensures Exactly(t, InOrder(t, l, t.span[l].rank), t.span[l])
    decreases t.span[l].rank, 0
  {
    assert LocalOk(t, l, max, NULL_LOCATION);
    var n, s := t.nodes[l], t.span[l];
    if s.rank == 0 {
      forall k: Key ensures k in n.keys <==> k in t.kv && Within(k, s) {
        if Within(k, s) {
          LeafDecides(t, max, NULL_LOCATION, l, k);
        }
      }
    } else {
      InOrderOfExact(t, max, l, |n.children|);
      assert n.children[..|n.children|] == n.children;
    }
  }

  /** The walk over the first `i` children sees exactly the keys up to the separator after them. */
  lemma {:induction false} InOrderOfExact(t: Tree, max: nat, l: Location, i: nat)
    requires Good(t, max) && l in t.nodes && LocalOk(t, l, max, NULL_LOCATION)
    requires t.span[l].rank > 0 && 1 <= i <= |t.nodes[l].children|
    ensures var n, s := t.nodes[l], t.span[l];
      Exactly(t, InOrderOf(t, n.children[..i], s.rank - 1), ChildSpan(n, s, i - 1).(lo := s.lo))
    decreases t.span[l].rank - 1, i
  {
    var n, s := t.nodes[l], t.span[l];
    var cs := n.children[..i];
    var c := n.children[i - 1];
    assert cs[..i - 1] == n.children[..i - 1];
    assert ChildOk(t, l, i - 1);
    InOrderExact(t, max, c);
    if i == 1 {
      assert InOrderOf(t, cs[..0], s.rank - 1) == [];
      assert InOrderOf(t, cs, s.rank - 1) == InOrder(t, c, s.rank - 1);
    } else {
      InOrderOfExact(t, max, l, i - 1);
      assert Within(n.keys[i - 2], s);
      if i - 1 < |n.keys| {
        assert Within(n.keys[i - 1], s) && n.keys[i - 2] < n.keys[i - 1];
      }
      ExactlyJoins(t, InOrderOf(t, cs[..i - 1], s.rank - 1), ChildSpan(n, s, i - 2).(lo := s.lo),
                   InOrder(t, c, s.rank - 1), ChildSpan(n, s, i - 1));
    }
  }

  /** A sorted sequence has as many elements as the set of its elements. */
  lemma {:induction false} SortedCount(keys: seq<Key>, s: set<Key>)
    requires Sorted(keys) && forall k: Key :: k in keys <==> k in s
    ensures |keys| == |s|
  {
    if keys == [] {
      assert s == {};
    } else {
      var last := keys[|keys| - 1];
      var front := keys[..|keys| - 1];
      forall k: Key ensures k in front <==> k in s - {last} {
        if k in s - {last} {
          var i :| 0 <= i < |keys| && keys[i] == k;
          assert front[i] == k;
        }
        if k in front {
          var i :| 0 <= i < |front| && front[i] == k;
          assert keys[i] < last;
        }
      }
      SortedCount(front, s - {last});
    }
  }

  /** A walk over the whole tree sees every bound key once, in strictly increasing order. */
  lemma AllKeysExact(t: Tree, max: nat)
    requires Good(t, max)
    ensures Sorted(AllKeys(t))
    ensures forall k: Key :: k in AllKeys(t) <==> k in t.kv
    ensures |AllKeys(t)| == |t.kv|
  {
    if t.root in t.nodes {
      assert LocalOk(t, t.root, max, NULL_LOCATION);
      InOrderExact(t, max, t.root);
    }
    SortedCount(AllKeys(t), t.kv.Keys);
  }

  // ---------- how many keys a tree of a given height holds ----------

  ghost function Pow(b: nat, e: nat): nat {
    if e == 0 then 1 else b * Pow(b, e - 1)
  }

  lemma MulMono(a: nat, b: nat, c: nat)
    requires a <= b
    ensures a * c <= b * c
  {
  }

  /** Every node below the root has at least half its children, so its subtree grows by that factor per level. */
  lemma {:induction false} SubtreeSize(t: Tree, max: nat, l: Location)
    requires Good(t, max) && l in t.nodes && l != t.root
    ensures |InOrder(t, l, t.span[l].rank)| >= Pow((max + 1) / 2, t.span[l].rank)
    decreases t.span[l].rank, 0
  {
    assert LocalOk(t, l, max, NULL_LOCATION);
    var n, r := t.nodes[l], t.span[l].rank;
    if r > 0 {
      ChildrenSize(t, max, l, |n.children|);
      assert n.children[..|n.children|] == n.children;
      MulMono((max + 1) / 2, |n.children|, Pow((max + 1) / 2, r - 1));
    }
  }

  lemma {:induction false} ChildrenSize(t: Tree, max: nat, l: Location, i: nat)
    requires Good(t, max) && l in t.nodes && LocalOk(t, l, max, NULL_LOCATION)
    requires t.span[l].rank > 0 && i <= |t.nodes[l].children|
    ensures |InOrderOf(t, t.nodes[l].children[..i], t.span[l].rank - 1)| >= i * Pow((max + 1) / 2, t.span[l].rank - 1)
    decreases t.span[l].rank - 1, i + 1
  {
    if i == 0 {
    } else {
      var n, r, c := t.nodes[l], t.span[l].rank, (max + 1) / 2;
      var cs := n.children[..i];
      assert cs[..i - 1] == n.children[..i - 1];
      assert ChildOk(t, l, i - 1);
      SubtreeSize(t, max, cs[i - 1]);
      ChildrenSize(t, max, l, i - 1);
      assert i * Pow(c, r - 1) == (i - 1) * Pow(c, r - 1) + Pow(c, r - 1);
    }
  }

  /** A tree of `levels` levels holds at least 2 * ceil(BRankMax / 2) ^ (levels - 2) keys. */
  lemma TallTreesAreFull(t: Tree, max: nat, levels: nat)
    requires Good(t, max) && t.root in t.nodes
    requires levels == t.span[t.root].rank + 1 && levels >= 2
    ensures |t.kv| >= 2 * Pow((max + 1) / 2, levels - 2)
  {
    assert LocalOk(t, t.root, max, NULL_LOCATION);
    AllKeysExact(t, max);
    var n := t.nodes[t.root];
    ChildrenSize(t, max, t.root, |n.children|);
    assert n.children[..|n.children|] == n.children;
    MulMono(2, |n.children|, Pow((max + 1) / 2, levels - 2));
  }
}
