/**
 Which table the join takes next (getNextAssignTableName in src/Parser/AST/Nodes.cpp): it depends on the shape of the
 clause, not on the rows, so every branch of the join takes the tables in one order.
 */
module Plans {
  import opened CrossProducts
  import opened Locations
  import opened Rows
  import opened WhereClauses

  /** Which columns of each table have an index. */
  type Indexed = map<Name, seq<bool>>

  predicate HasIndex(indexed: Indexed, ref: ColumnRef) {
    ref.table in indexed && ref.offset < |indexed[ref.table]| && indexed[ref.table][ref.offset]
  }

  /** The conjunct asks for one value of an indexed column of `t`. */
  predicate Pinned(indexed: Indexed, t: Name, c: Conjunct) {
    c.op == Eq && c.right.Literal? && c.left.table == t && HasIndex(indexed, c.left)
  }

  /** The conjunct joins `t` to an indexed column of another table. */
  predicate Feeds(indexed: Indexed, t: Name, c: Conjunct) {
    c.op == Eq && c.right.Col? &&
    ((c.left.table == t && c.right.ref.table != t && HasIndex(indexed, c.right.ref))
     || (c.left.table != t && c.right.ref.table == t && HasIndex(indexed, c.left)))
  }

  predicate AnyFeeds(indexed: Indexed, t: Name, clause: Clause, n: nat)
    requires n <= |clause|
  {
    exists i :: 0 <= i < n && Feeds(indexed, t, clause[i])
  }

  /** The first conjunct from the `i`-th on that pins `t`. */
  function FirstPin(indexed: Indexed, t: Name, clause: Clause, i: nat): (r: Option<nat>)
    requires i <= |clause|
    ensures r.Some? ==> i <= r.value < |clause| && Pinned(indexed, t, clause[r.value])
    decreases |clause| - i
  {
    if i == |clause| then None
    else if Pinned(indexed, t, clause[i]) then Some(i)
    else FirstPin(indexed, t, clause, i + 1)
  }

  /** The table that is taken, and the conjunct whose value is looked up in its index, if any. */
  datatype Pick = Pick(table: Name, pin: Option<nat>)

  /** The value that an index is asked for: for a null literal the source asks for the empty string. */
  function PinCell(v: Cell): Cell {
    if v == Null then Text("") else v
  }

  /** The first table from the `k`-th on that is pinned; else the last one that feeds another, else `fallback`. */
  function ChooseFrom(indexed: Indexed, clause: Clause, tables: seq<Name>, k: nat, fallback: Name): (r: Pick)
    requires k <= |tables| && fallback in tables
    ensures r.table in tables
    ensures r.pin.Some? ==> r.pin.value < |clause| && Pinned(indexed, r.table, clause[r.pin.value])
    decreases |tables| - k
  {
    if k == |tables| then Pick(fallback, None)
    else
      var pin := FirstPin(indexed, tables[k], clause, 0);
      if pin.Some? then Pick(tables[k], pin)
      else ChooseFrom(indexed, clause, tables, k + 1,
                      if AnyFeeds(indexed, tables[k], clause, |clause|) then tables[k] else fallback)
  }

  function Choose(indexed: Indexed, clause: Clause, tables: seq<Name>): Pick
    requires tables != []
  {
    ChooseFrom(indexed, clause, tables, 0, tables[0])
  }

  /** Some conjunct asks for one value of an indexed column of `t`. */
  predicate IsPinned(indexed: Indexed, t: Name, clause: Clause) {
    exists i :: 0 <= i < |clause| && Pinned(indexed, t, clause[i])
  }

  lemma {:induction false} FirstPinExists(indexed: Indexed, t: Name, clause: Clause, i: nat)
    requires i <= |clause|
    ensures FirstPin(indexed, t, clause, i).Some? <==> exists k :: i <= k < |clause| && Pinned(indexed, t, clause[k])
    decreases |clause| - i
  {
    if i == |clause| {
    } else {
      FirstPinExists(indexed, t, clause, i + 1);
    }
  }

  predicate AnyPinned(indexed: Indexed, clause: Clause, tables: seq<Name>, n: nat)
    requires n <= |tables|
  {
    exists j :: 0 <= j < n && IsPinned(indexed, tables[j], clause)
  }

  /** Of the first `n` tables the last that feeds another one; or the first table, if there is none. */
  predicate LastFeeding(indexed: Indexed, clause: Clause, tables: seq<Name>, n: nat, at: nat)
    requires n <= |tables|
  {
    if exists j :: 0 <= j < n && AnyFeeds(indexed, tables[j], clause, |clause|) then
      && at < n && AnyFeeds(indexed, tables[at], clause, |clause|)
      && forall j :: at < j < n ==> !AnyFeeds(indexed, tables[j], clause, |clause|)
    else
      at == 0
  }

  /** The first pinned table; or, as none is pinned, the last that feeds another; or the first of all. */
  predicate TakenNext(indexed: Indexed, clause: Clause, tables: seq<Name>, at: nat) {
    at < |tables| &&
    if AnyPinned(indexed, clause, tables, |tables|) then
      IsPinned(indexed, tables[at], clause) && !AnyPinned(indexed, clause, tables, at)
    else
      LastFeeding(indexed, clause, tables, |tables|, at)
  }

  lemma {:induction false} ChosenFrom(indexed: Indexed, clause: Clause, tables: seq<Name>, k: nat, last: nat)
    returns (at: nat)
    requires k <= |tables| && last < |tables| && !AnyPinned(indexed, clause, tables, k)
    requires LastFeeding(indexed, clause, tables, k, last)
    ensures TakenNext(indexed, clause, tables, at)
    ensures ChooseFrom(indexed, clause, tables, k, tables[last]).table == tables[at]
    decreases |tables| - k
  {
    if k == |tables| {
      at := last;
    } else {
      FirstPinExists(indexed, tables[k], clause, 0);
      if IsPinned(indexed, tables[k], clause) {
        at := k;
      } else {
        var next := if AnyFeeds(indexed, tables[k], clause, |clause|) then k else last;
        at := ChosenFrom(indexed, clause, tables, k + 1, next);
      }
    }
  }

  /** Which table is taken next. */
  lemma ChosenTable(indexed: Indexed, clause: Clause, tables: seq<Name>)
    requires tables != []
    ensures exists at: nat ::
      TakenNext(indexed, clause, tables, at) && Choose(indexed, clause, tables).table == tables[at]
  {
    var at := ChosenFrom(indexed, clause, tables, 0, 0);
  }

  lemma {:induction false} ChosenPinFrom(indexed: Indexed, clause: Clause, tables: seq<Name>, k: nat, fallback: Name)
    requires k <= |tables| && fallback in tables
    requires forall i :: 0 <= i < k ==> FirstPin(indexed, tables[i], clause, 0).None?
    ensures var pick := ChooseFrom(indexed, clause, tables, k, fallback);
      pick.pin == FirstPin(indexed, pick.table, clause, 0)
    decreases |tables| - k
  {
    if k < |tables| && FirstPin(indexed, tables[k], clause, 0).None? {
      ChosenPinFrom(indexed, clause, tables, k + 1,
                    if AnyFeeds(indexed, tables[k], clause, |clause|) then tables[k] else fallback);
    }
  }

  /** An index is asked exactly if some conjunct pins the table that is taken, and then for the first such conjunct. */
  lemma ChosenPin(indexed: Indexed, clause: Clause, tables: seq<Name>)
    requires tables != []
    ensures var pick := Choose(indexed, clause, tables); pick.pin == FirstPin(indexed, pick.table, clause, 0)
  {
    ChosenPinFrom(indexed, clause, tables, 0, tables[0]);
  }

  /**
   The conjuncts about one candidate table, in order: the first that pins it, and whether one of them feeds another.
   */
  method Inspect(indexed: Indexed, clause: Clause, t: Name) returns (pin: Option<nat>, feeds: bool)
    ensures pin == FirstPin(indexed, t, clause, 0)
    ensures pin.None? ==> feeds == AnyFeeds(indexed, t, clause, |clause|)
  {
    feeds := false;
    for i := 0 to |clause|
      invariant FirstPin(indexed, t, clause, 0) == FirstPin(indexed, t, clause, i)
      invariant feeds == AnyFeeds(indexed, t, clause, i)
    {
      var c := clause[i];
      if c.op == Eq && c.right.Literal? {
        if c.left.table == t && HasIndex(indexed, c.left) {
          return Some(i), feeds;
        }
      } else if c.op == Eq && c.right.Col? {
        if c.left.table == t && c.right.ref.table != t && HasIndex(indexed, c.right.ref) {
          feeds := true;
        } else if c.left.table != t && c.right.ref.table == t && HasIndex(indexed, c.left) {
          feeds := true;
        }
      }
    }
    pin := None;
  }

  /** getNextAssignTableName. */
  method NextTable(indexed: Indexed, clause: Clause, tables: seq<Name>) returns (pick: Pick)
    requires tables != []
    ensures pick == Choose(indexed, clause, tables)
  {
    var rank2 := tables[0];
    for k := 0 to |tables|
      invariant rank2 in tables
      invariant Choose(indexed, clause, tables) == ChooseFrom(indexed, clause, tables, k, rank2)
    {
      var pin, feeds := Inspect(indexed, clause, tables[k]);
      if pin.Some? {
        return Pick(tables[k], pin);
      }
      if feeds {
        rank2 := tables[k];
      }
    }
    return Pick(rank2, None);
  }

  // ---------- the order of the tables ----------

  /** A conjunct without its value. */
  function Shape(c: Conjunct): Conjunct {
    if c.right.Literal? then c.(right := Literal(Null)) else c
  }

  /** Two clauses that differ only in their values. */
  ghost predicate SameShape(a: Clause, b: Clause) {
    |a| == |b| && forall i {:trigger a[i]} {:trigger b[i]} :: 0 <= i < |a| ==> Shape(a[i]) == Shape(b[i])
  }

  lemma {:induction false} SamePin(indexed: Indexed, t: Name, a: Clause, b: Clause, i: nat)
    requires SameShape(a, b) && i <= |a|
    ensures FirstPin(indexed, t, a, i) == FirstPin(indexed, t, b, i)
    decreases |a| - i
  {
    if i < |a| {
      assert Shape(a[i]) == Shape(b[i]);
      SamePin(indexed, t, a, b, i + 1);
    }
  }

  lemma {:induction false} SameChoice(indexed: Indexed, a: Clause, b: Clause, tables: seq<Name>, k: nat, fallback: Name)
    requires SameShape(a, b) && k <= |tables| && fallback in tables
    ensures ChooseFrom(indexed, a, tables, k, fallback) == ChooseFrom(indexed, b, tables, k, fallback)
    decreases |tables| - k
  {
    if k < |tables| {
      SamePin(indexed, tables[k], a, b, 0);
      SameChoice(indexed, a, b, tables, k + 1, if AnyFeeds(indexed, tables[k], a, |a|) then tables[k] else fallback);
      forall i | 0 <= i < |a| ensures Feeds(indexed, tables[k], a[i]) == Feeds(indexed, tables[k], b[i]) {
        assert Shape(a[i]) == Shape(b[i]);
      }
    }
  }

  /** Partial evaluation with any two rows leaves clauses of one shape. */
  lemma {:induction false} SameResidual(a: Clause, b: Clause, t: Name, x: Item, y: Item, n: nat)
    requires SameShape(a, b) && n <= |a|
    ensures SameShape(AssignUpTo(a, t, x, n), AssignUpTo(b, t, y, n))
  {
    if n == 0 {
    } else {
      SameResidual(a, b, t, x, y, n - 1);
      assert Shape(a[n - 1]) == Shape(b[n - 1]);
    }
  }

  lemma {:induction false} OthersShorter(tables: seq<Name>, t: Name, n: nat)
    requires n <= |tables|
    ensures |OthersUpTo(tables, t, n)| <= n && (Among(tables, t, n) ==> |OthersUpTo(tables, t, n)| < n)
  {
    if n == 0 {
    } else {
      OthersShorter(tables, t, n - 1);
    }
  }

  /** The order in which the tables are taken. */
  function Plan(indexed: Indexed, clause: Clause, tables: seq<Name>): (plan: seq<Name>)
    ensures |plan| <= |tables|
    decreases |tables|
  {
    if tables == [] then []
    else
      var t := Choose(indexed, clause, tables).table;
      AmongIs(tables, t, |tables|);
      OthersShorter(tables, t, |tables|);
      [t] + Plan(indexed, Residual(clause, t, []), Others(tables, t))
  }

  /** The order is the same for clauses of one shape. */
  lemma {:induction false} SamePlan(indexed: Indexed, a: Clause, b: Clause, tables: seq<Name>)
    requires SameShape(a, b)
    ensures Plan(indexed, a, tables) == Plan(indexed, b, tables)
    decreases |tables|
  {
    if tables == [] {
    } else {
      var t := Choose(indexed, a, tables).table;
      SameChoice(indexed, a, b, tables, 0, tables[0]);
      SameResidual(a, b, t, [], [], |a|);
      AmongIs(tables, t, |tables|);
      OthersShorter(tables, t, |tables|);
      SamePlan(indexed, Residual(a, t, []), Residual(b, t, []), Others(tables, t));
    }
  }

  /** After the first table, every row of it leads to the same order. */
  lemma PlanOfResidual(indexed: Indexed, clause: Clause, tables: seq<Name>, item: Item)
    requires tables != []
    ensures var t := Choose(indexed, clause, tables).table;
      Plan(indexed, clause, tables) == [t] + Plan(indexed, Residual(clause, t, item), Others(tables, t))
  {
    var t := Choose(indexed, clause, tables).table;
    SameResidual(clause, clause, t, [], item, |clause|);
    SamePlan(indexed, Residual(clause, t, []), Residual(clause, t, item), Others(tables, t));
  }

  /** Every table is taken once. */
  lemma {:induction false} PlanCovers(indexed: Indexed, clause: Clause, tables: seq<Name>)
    requires NoDuplicates(tables)
    ensures |Plan(indexed, clause, tables)| == |tables| && NoDuplicates(Plan(indexed, clause, tables))
    ensures forall t :: t in Plan(indexed, clause, tables) <==> t in tables
    decreases |tables|
  {
    if tables == [] {
    } else {
      var t := Choose(indexed, clause, tables).table;
      AmongIs(tables, t, |tables|);
      OthersShorter(tables, t, |tables|);
      OthersMembers(tables, t);
      PlanCovers(indexed, Residual(clause, t, []), Others(tables, t));
    }
  }
}
