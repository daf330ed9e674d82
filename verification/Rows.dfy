/**
 Cells, items and rows of a table, and what a scan that filters them returns.
 */
module Rows {
  import opened Locations

  /** The two column types of the language. */
  datatype Kind = IntKind | TextKind

  /** One stored value. A null carries no value. */
  datatype Cell = Null | Int(i: int) | Text(s: string)

  type Item = seq<Cell>

  /** A column as the schema describes it; `unique` columns are the keys of the table. */
  datatype Column = Column(name: string, kind: Kind, notNull: bool, unique: bool)

  predicate CellFits(kind: Kind, c: Cell) {
    match c
    case Null => true
    case Int(_) => kind == IntKind
    case Text(_) => kind == TextKind
  }

  /** An item with one cell of the right type for every column. */
  predicate ItemFits(columns: seq<Column>, item: Item) {
    |item| == |columns| && forall i :: 0 <= i < |columns| ==> CellFits(columns[i].kind, item[i])
  }

  /** Those of the first `n` elements that pass, in order. */
  function FilterUpTo<T>(s: seq<T>, p: T -> bool, n: nat): seq<T>
    requires n <= |s|
  {
    if n == 0 then []
    else if p(s[n - 1]) then FilterUpTo(s, p, n - 1) + [s[n - 1]]
    else FilterUpTo(s, p, n - 1)
  }

  /** The elements that pass, in order. */
  function Filter<T>(s: seq<T>, p: T -> bool): seq<T> {
    FilterUpTo(s, p, |s|)
  }

  lemma {:induction false} FilterFront<T>(a: seq<T>, x: T, p: T -> bool, n: nat)
    requires n <= |a|
    ensures FilterUpTo(a + [x], p, n) == FilterUpTo(a, p, n)
  {
    if n == 0 {
    } else {
      FilterFront(a, x, p, n - 1);
    }
  }

  lemma FilterLast<T>(a: seq<T>, x: T, p: T -> bool)
    ensures Filter(a + [x], p) == Filter(a, p) + if p(x) then [x] else []
  {
    FilterFront(a, x, p, |a|);
  }

  lemma {:induction false} FilterUpToCount<T>(s: seq<T>, p: T -> bool, n: nat, x: T)
    requires n <= |s|
    ensures multiset(FilterUpTo(s, p, n))[x] == if p(x) then multiset(s[..n])[x] else 0
  {
    if n == 0 {
    } else {
      FilterUpToCount(s, p, n - 1, x);
      assert s[..n] == s[..n - 1] + [s[n - 1]];
    }
  }

  /** A filter keeps or drops all copies of an element together. */
  lemma FilterCount<T>(s: seq<T>, p: T -> bool, x: T)
    ensures multiset(Filter(s, p))[x] == if p(x) then multiset(s)[x] else 0
  {
    FilterUpToCount(s, p, |s|, x);
    assert s[..|s|] == s;
  }

  /** Filters of permuted sequences are permutations of each other. */
  lemma FilterPermuted<T(!new)>(s: seq<T>, t: seq<T>, p: T -> bool, q: T -> bool)
    requires multiset(s) == multiset(t) && forall x :: x in s ==> p(x) == q(x)
    ensures multiset(Filter(s, p)) == multiset(Filter(t, q))
  {
    var a, b := multiset(Filter(s, p)), multiset(Filter(t, q));
    forall x ensures a[x] == b[x] {
      FilterCount(s, p, x);
      FilterCount(t, q, x);
      if multiset(s)[x] > 0 {
        assert x in multiset(s) && x in s;
      }
    }
  }

  /** Of two tests the one that lets more through keeps more, and no more exactly if both agree on all that it keeps. */
  lemma WiderFilter<T(!new)>(xs: seq<T>, p: T -> bool, q: T -> bool)
    requires forall x :: x in xs && p(x) ==> q(x)
    ensures multiset(Filter(xs, p)) <= multiset(Filter(xs, q))
    ensures multiset(Filter(xs, p)) == multiset(Filter(xs, q)) <==> forall x :: x in Filter(xs, q) ==> p(x)
  {
    var kept, wide := multiset(Filter(xs, p)), multiset(Filter(xs, q));
    forall x ensures kept[x] <= wide[x] && (kept[x] != wide[x] <==> x in wide && !p(x)) {
      FilterCount(xs, p, x);
      FilterCount(xs, q, x);
      assert x in xs <==> x in multiset(xs);
    }
    if kept == wide {
      forall x | x in Filter(xs, q) ensures p(x) {
        assert x in wide;
      }
    } else {
      var x :| kept[x] != wide[x];
      assert x in wide;
    }
  }

  lemma FilterMember<T>(s: seq<T>, p: T -> bool, x: T)
    ensures x in Filter(s, p) <==> x in s && p(x)
  {
    FilterCount(s, p, x);
    assert x in multiset(Filter(s, p)) <==> x in Filter(s, p);
    assert x in multiset(s) <==> x in s;
  }

  /** No element occurs twice, by counting. */
  ghost predicate Distinct<T(!new)>(s: seq<T>) {
    forall x {:trigger multiset(s)[x]} :: multiset(s)[x] <= 1
  }

  /** Counting and comparing positions say the same. */
  lemma {:induction false} DistinctIs<T(!new)>(s: seq<T>)
    ensures Distinct(s) <==> NoDuplicates(s)
  {
    if s == [] {
    } else {
      var n := |s| - 1;
      var front, x := s[..n], s[n];
      assert s == front + [x];
      DistinctIs(front);
      assert x in front <==> multiset(front)[x] > 0;
      assert forall y :: multiset(s)[y] == multiset(front)[y] + if y == x then 1 else 0;
      if NoDuplicates(s) {
        assert forall i :: 0 <= i < n ==> s[i] != s[n];
      }
    }
  }

  /** Distinct sequences with the same elements are permutations of each other. */
  lemma DistinctPermuted<T(!new)>(s: seq<T>, t: seq<T>)
    requires Distinct(s) && Distinct(t) && forall x :: x in s <==> x in t
    ensures multiset(s) == multiset(t)
  {
    forall x ensures multiset(s)[x] == multiset(t)[x] {
      assert x in multiset(s) <==> x in s;
      assert x in multiset(t) <==> x in t;
    }
  }

  lemma DistinctFilter<T(!new)>(s: seq<T>, p: T -> bool)
    requires Distinct(s)
    ensures Distinct(Filter(s, p))
  {
    forall x ensures multiset(Filter(s, p))[x] <= 1 {
      FilterCount(s, p, x);
    }
  }

  /** The items at some locations, in order. */
  function ItemsAt(rows: map<Location, Item>, locs: seq<Location>): (items: seq<Item>)
    requires forall l :: l in locs ==> l in rows
    ensures |items| == |locs| && forall i :: 0 <= i < |locs| ==> items[i] == rows[locs[i]]
  {
    seq(|locs|, i requires 0 <= i < |locs| => rows[locs[i]])
  }

  lemma ItemsAtAppend(rows: map<Location, Item>, locs: seq<Location>, l: Location)
    requires (forall x :: x in locs ==> x in rows) && l in rows
    ensures ItemsAt(rows, locs + [l]) == ItemsAt(rows, locs) + [rows[l]]
  {
  }

  lemma Parted<T>(front: seq<T>, l: T, a: seq<T>, b: seq<T>) returns (c: seq<T>, d: seq<T>)
    requires a == front + [l] && multiset(a) == multiset(b)
    ensures b == c + [l] + d && multiset(c + d) == multiset(front)
  {
    assert l in multiset(a) && l in multiset(b) && l in b;
    var i :| 0 <= i < |b| && b[i] == l;
    c, d := b[..i], b[i + 1..];
    assert b == c + [l] + d;
    assert multiset(c + d) == multiset(b) - multiset{l} by {
      assert multiset(c + [l] + d) == multiset(c) + multiset{l} + multiset(d);
    }
    assert multiset(front) == multiset(a) - multiset{l};
  }

  lemma ItemsAtParted(rows: map<Location, Item>, c: seq<Location>, l: Location, d: seq<Location>)
    requires forall x :: x in c + [l] + d ==> x in rows
    ensures (forall x :: x in c + d ==> x in rows) && l in rows
    ensures multiset(ItemsAt(rows, c + [l] + d)) == multiset(ItemsAt(rows, c + d)) + multiset{rows[l]}
  {
    var b := c + [l] + d;
    assert forall x :: x in c ==> x in b;
    assert forall x :: x in d ==> x in b;
    assert l in b;
    assert ItemsAt(rows, b) == ItemsAt(rows, c) + [rows[l]] + ItemsAt(rows, d);
    assert ItemsAt(rows, c + d) == ItemsAt(rows, c) + ItemsAt(rows, d);
  }

  lemma {:induction false} ItemsAtPermuted(rows: map<Location, Item>, a: seq<Location>, b: seq<Location>)
    requires (forall l :: l in a ==> l in rows) && (forall l :: l in b ==> l in rows) && multiset(a) == multiset(b)
    ensures multiset(ItemsAt(rows, a)) == multiset(ItemsAt(rows, b))
    decreases |a|
  {
    assert |a| == |multiset(a)| == |multiset(b)| == |b|;
    if a != [] {
      var l, front := a[|a| - 1], a[..|a| - 1];
      var c, d := Parted(front, l, a, b);
      ItemsAtPermuted(rows, front, c + d);
      ItemsAtAppend(rows, front, l);
      ItemsAtParted(rows, c, l, d);
      assert a == front + [l] && b == c + [l] + d;
    }
  }

  /** Filtering locations by their items is filtering the items. */
  lemma {:induction false} FilterItems(rows: map<Location, Item>, locs: seq<Location>, p: Location -> bool,
                                       q: Item -> bool, n: nat)
    requires n <= |locs| && forall l :: l in locs ==> l in rows && p(l) == q(rows[l])
    ensures (forall l :: l in FilterUpTo(locs, p, n) ==> l in rows) &&
      ItemsAt(rows, FilterUpTo(locs, p, n)) == FilterUpTo(ItemsAt(rows, locs), q, n)
  {
    if n == 0 {
    } else {
      FilterItems(rows, locs, p, q, n - 1);
      assert locs[n - 1] in locs;
    }
  }
}
