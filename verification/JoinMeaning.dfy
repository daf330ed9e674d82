/**
 Which combinations of rows the depth-first join finds (src/Parser/AST/Nodes.cpp, dfs), whatever the clause: table after
 table, in the order in which they are taken, each row is tested against what the clause says about it by then. A
 comparison of two tables is tested at the one that is taken later, with the value that the earlier row has; of several
 tests of one column only the last one counts; and where an index is asked, the row has the value that it was asked for.
 */
module JoinMeanings {
  import opened CrossProducts
  import opened Locations
  import opened Plans
  import opened Rows
  import opened WhereClauses

  function ItemOf(env: Env, t: Name): Item {
    if t in env then env[t] else []
  }

  /** The column of table `x` that a conjunct tests, and how, if `x` is taken after the tables in `before`. */
  function Tested(c: Conjunct, x: Name, before: set<Name>, env: Env): Option<(nat, Check)> {
    match c.right
    case Literal(v) =>
      if c.left.table == x then Some((c.left.offset, Check(c.op, Fixed(v)))) else None
    case Col(ref) =>
      if c.left.table == x && ref.table == x then Some((c.left.offset, Check(c.op, SameItem(ref.offset))))
      else if c.left.table == x && ref.table in before then Some((c.left.offset, Check(c.op, Fixed(CellAt(env, ref)))))
      else if ref.table == x && c.left.table in before
        then Some((ref.offset, Check(Flip(c.op), Fixed(CellAt(env, c.left)))))
      else None
  }

  /** The last test of column `j` among the first `n` conjuncts. */
  function LastTested(clause: Clause, x: Name, before: set<Name>, env: Env, j: nat, n: nat): Option<Check>
    requires n <= |clause|
  {
    if n == 0 then None
    else
      var r := Tested(clause[n - 1], x, before, env);
      if r.Some? && r.value.0 == j then Some(r.value.1) else LastTested(clause, x, before, env, j, n - 1)
  }

  /** A test that an index can answer: the column, and the value that it is asked for. */
  function Pin(indexed: Indexed, x: Name, r: Option<(nat, Check)>): Option<(nat, Cell)> {
    if r.Some? && r.value.1.op == Eq && r.value.1.operand.Fixed? && HasIndex(indexed, ColumnRef(x, r.value.0))
    then Some((r.value.0, r.value.1.operand.cell))
    else None
  }

  /** The first of those among the first `n` conjuncts. */
  function FirstPinned(indexed: Indexed, clause: Clause, x: Name, before: set<Name>, env: Env, n: nat)
    : Option<(nat, Cell)>
    requires n <= |clause|
  {
    if n == 0 then None
    else
      var first := FirstPinned(indexed, clause, x, before, env, n - 1);
      if first.Some? then first else Pin(indexed, x, Tested(clause[n - 1], x, before, env))
  }

  /** The item has the value that the index was asked for. */
  predicate PinOk(pin: Option<(nat, Cell)>, item: Item) {
    pin.Some? ==> pin.value.0 < |item| && item[pin.value.0] == PinCell(pin.value.1)
  }

  predicate TestOk(check: Option<Check>, item: Item, j: nat) {
    check.Some? ==> Test(check.value, CellOf(item, j), item)
  }

  /** The row of table `x` passes, if `x` is taken after the tables in `before`. */
  ghost predicate Admits(indexed: Indexed, clause: Clause, x: Name, before: set<Name>, env: Env) {
    && (forall j: nat {:trigger LastTested(clause, x, before, env, j, |clause|)} ::
          TestOk(LastTested(clause, x, before, env, j, |clause|), ItemOf(env, x), j))
    && PinOk(FirstPinned(indexed, clause, x, before, env, |clause|), ItemOf(env, x))
  }

  /** The combination is found: every row passes when its table is taken. */
  ghost predicate Finds(indexed: Indexed, clause: Clause, before: set<Name>, plan: seq<Name>, env: Env)
    decreases |plan|
  {
    plan == [] ||
    (&& Admits(indexed, clause, plan[0], before, env)
     && Finds(indexed, clause, before + {plan[0]}, plan[1..], env))
  }

  // ---------- partial evaluation leads to the same tests ----------

  lemma TestedAfter(c: Conjunct, t: Name, x: Name, before: set<Name>, env: Env)
    requires x != t
    ensures var r := AssignOne(c, t, ItemOf(env, t));
      Tested(c, x, before + {t}, env) == if r.Some? then Tested(r.value, x, before, env) else None
  {
    assert forall ref: ColumnRef :: ref.table == t ==> CellAt(env, ref) == CellOf(ItemOf(env, t), ref.offset);
  }

  lemma {:induction false} LastTestedFront(a: Clause, c: Conjunct, x: Name, before: set<Name>, env: Env, j: nat, n: nat)
    requires n <= |a|
    ensures LastTested(a + [c], x, before, env, j, n) == LastTested(a, x, before, env, j, n)
  {
    if n == 0 {
    } else {
      LastTestedFront(a, c, x, before, env, j, n - 1);
    }
  }

  lemma {:induction false} LastTestedAfter(clause: Clause, t: Name, x: Name, before: set<Name>, env: Env, j: nat,
                                           n: nat)
    requires x != t && n <= |clause|
    ensures var rest := AssignUpTo(clause, t, ItemOf(env, t), n);
      LastTested(clause, x, before + {t}, env, j, n) == LastTested(rest, x, before, env, j, |rest|)
  {
    if n == 0 {
    } else {
      LastTestedAfter(clause, t, x, before, env, j, n - 1);
      TestedAfter(clause[n - 1], t, x, before, env);
      var front, r := AssignUpTo(clause, t, ItemOf(env, t), n - 1), AssignOne(clause[n - 1], t, ItemOf(env, t));
      if r.Some? {
        LastTestedFront(front, r.value, x, before, env, j, |front|);
      }
    }
  }

  lemma {:induction false} FirstPinnedFront(indexed: Indexed, a: Clause, c: Conjunct, x: Name, before: set<Name>,
                                            env: Env, n: nat)
    requires n <= |a|
    ensures FirstPinned(indexed, a + [c], x, before, env, n) == FirstPinned(indexed, a, x, before, env, n)
  {
    if n == 0 {
    } else {
      FirstPinnedFront(indexed, a, c, x, before, env, n - 1);
    }
  }

  lemma {:induction false} FirstPinnedAfter(indexed: Indexed, clause: Clause, t: Name, x: Name, before: set<Name>,
                                            env: Env, n: nat)
    requires x != t && n <= |clause|
    ensures var rest := AssignUpTo(clause, t, ItemOf(env, t), n);
      FirstPinned(indexed, clause, x, before + {t}, env, n) == FirstPinned(indexed, rest, x, before, env, |rest|)
  {
    if n == 0 {
    } else {
      FirstPinnedAfter(indexed, clause, t, x, before, env, n - 1);
      TestedAfter(clause[n - 1], t, x, before, env);
      var front, r := AssignUpTo(clause, t, ItemOf(env, t), n - 1), AssignOne(clause[n - 1], t, ItemOf(env, t));
      if r.Some? {
        FirstPinnedFront(indexed, front, r.value, x, before, env, |front|);
      }
    }
  }

  lemma AdmitsAfter(indexed: Indexed, clause: Clause, t: Name, x: Name, before: set<Name>, env: Env)
    requires x != t
    ensures Admits(indexed, clause, x, before + {t}, env)
       <==> Admits(indexed, Residual(clause, t, ItemOf(env, t)), x, before, env)
  {
    var rest := Residual(clause, t, ItemOf(env, t));
    forall j: nat
      ensures LastTested(clause, x, before + {t}, env, j, |clause|) == LastTested(rest, x, before, env, j, |rest|)
    {
      LastTestedAfter(clause, t, x, before, env, j, |clause|);
    }
    FirstPinnedAfter(indexed, clause, t, x, before, env, |clause|);
  }

  /** Partial evaluation with the row of `t` leaves the tests of the tables after it as they were. */
  lemma {:induction false} FindsAfter(indexed: Indexed, clause: Clause, t: Name, before: set<Name>, plan: seq<Name>,
                                      env: Env)
    requires t !in plan
    ensures Finds(indexed, clause, before + {t}, plan, env)
       <==> Finds(indexed, Residual(clause, t, ItemOf(env, t)), before, plan, env)
    decreases |plan|
  {
    if plan == [] {
    } else {
      AdmitsAfter(indexed, clause, t, plan[0], before, env);
      FindsAfter(indexed, clause, t, before + {plan[0]}, plan[1..], env);
      assert before + {plan[0]} + {t} == before + {t} + {plan[0]};
    }
  }

  // ---------- tables that were not taken do not matter ----------

  lemma TestedWithout(c: Conjunct, x: Name, before: set<Name>, env: Env, t: Name)
    requires t !in before
    ensures Tested(c, x, before, env) == Tested(c, x, before, env - {t})
  {
  }

  lemma {:induction false} LastTestedWithout(clause: Clause, x: Name, before: set<Name>, env: Env, t: Name, j: nat,
                                             n: nat)
    requires t !in before && n <= |clause|
    ensures LastTested(clause, x, before, env, j, n) == LastTested(clause, x, before, env - {t}, j, n)
  {
    if n == 0 {
    } else {
      TestedWithout(clause[n - 1], x, before, env, t);
      LastTestedWithout(clause, x, before, env, t, j, n - 1);
    }
  }

  lemma {:induction false} FirstPinnedWithout(indexed: Indexed, clause: Clause, x: Name, before: set<Name>, env: Env,
                                              t: Name, n: nat)
    requires t !in before && n <= |clause|
    ensures FirstPinned(indexed, clause, x, before, env, n) == FirstPinned(indexed, clause, x, before, env - {t}, n)
  {
    if n == 0 {
    } else {
      TestedWithout(clause[n - 1], x, before, env, t);
      FirstPinnedWithout(indexed, clause, x, before, env, t, n - 1);
    }
  }

  lemma AdmitsWithout(indexed: Indexed, clause: Clause, x: Name, before: set<Name>, env: Env, t: Name)
    requires t !in before && t != x
    ensures Admits(indexed, clause, x, before, env) <==> Admits(indexed, clause, x, before, env - {t})
  {
    forall j: nat
      ensures LastTested(clause, x, before, env, j, |clause|) == LastTested(clause, x, before, env - {t}, j, |clause|)
    {
      LastTestedWithout(clause, x, before, env, t, j, |clause|);
    }
    FirstPinnedWithout(indexed, clause, x, before, env, t, |clause|);
  }

  lemma {:induction false} FindsWithout(indexed: Indexed, clause: Clause, before: set<Name>, plan: seq<Name>, env: Env,
                                        t: Name)
    requires t !in before && t !in plan
    ensures Finds(indexed, clause, before, plan, env) <==> Finds(indexed, clause, before, plan, env - {t})
    decreases |plan|
  {
    if plan == [] {
    } else {
      AdmitsWithout(indexed, clause, plan[0], before, env, t);
      FindsWithout(indexed, clause, before + {plan[0]}, plan[1..], env, t);
    }
  }

  // ---------- the table that is taken first ----------

  /** The checker of the first table makes the tests that only need its own row. */
  lemma {:induction false} FirstTests(clause: Clause, t: Name, env: Env, j: nat, n: nat)
    requires n <= |clause|
    ensures LastTested(clause, t, {}, env, j, n) == LastOn(clause, t, j, n)
  {
    if n == 0 {
    } else {
      FirstTests(clause, t, env, j, n - 1);
    }
  }

  lemma {:induction false} FirstPinnedStays(indexed: Indexed, clause: Clause, t: Name, before: set<Name>, env: Env,
                                            m: nat, n: nat)
    requires m <= n <= |clause| && FirstPinned(indexed, clause, t, before, env, m).Some?
    ensures FirstPinned(indexed, clause, t, before, env, n) == FirstPinned(indexed, clause, t, before, env, m)
    decreases n - m
  {
    if m < n {
      FirstPinnedStays(indexed, clause, t, before, env, m, n - 1);
    }
  }

  /** The conjunct that pins a table is the first one whose test an index can answer. */
  lemma {:induction false} FirstPinIs(indexed: Indexed, clause: Clause, t: Name, env: Env, i: nat)
    requires i <= |clause| && FirstPinned(indexed, clause, t, {}, env, i).None?
    ensures var pin := FirstPin(indexed, t, clause, i);
      FirstPinned(indexed, clause, t, {}, env, |clause|) ==
        if pin.Some? then Some((clause[pin.value].left.offset, clause[pin.value].right.value)) else None
    decreases |clause| - i
  {
    if i < |clause| {
      if Pinned(indexed, t, clause[i]) {
        FirstPinnedStays(indexed, clause, t, {}, env, i + 1, |clause|);
      } else {
        FirstPinIs(indexed, clause, t, env, i + 1);
      }
    }
  }

  /** What the index is asked for when table `t` is taken. */
  function AskedFor(clause: Clause, pin: Option<nat>): Option<(nat, Cell)>
    requires pin.Some? ==> pin.value < |clause| && clause[pin.value].right.Literal?
  {
    if pin.Some? then Some((clause[pin.value].left.offset, clause[pin.value].right.value)) else None
  }

  /**
   The row of the first table is admitted exactly if it passes the checker and has the value the index was asked for.
   */
  lemma FirstAdmits(indexed: Indexed, clause: Clause, t: Name, env: Env, checks: seq<Option<Check>>)
    requires forall i {:trigger clause[i]} ::
               0 <= i < |clause| && Local(clause[i], t) ==> clause[i].left.offset < |checks|
    requires forall j :: 0 <= j < |checks| ==> checks[j] == LastOn(clause, t, j, |clause|)
    ensures Admits(indexed, clause, t, {}, env) <==>
              Passes(checks, ItemOf(env, t)) && PinOk(AskedFor(clause, FirstPin(indexed, t, clause, 0)), ItemOf(env, t))
  {
    var item := ItemOf(env, t);
    FirstPinIs(indexed, clause, t, env, 0);
    forall j: nat ensures LastTested(clause, t, {}, env, j, |clause|) == if j < |checks| then checks[j] else None {
      FirstTests(clause, t, env, j, |clause|);
      var _ := LastOnIs(clause, t, j, |clause|);
    }
    if Passes(checks, item) {
      forall j: nat ensures TestOk(LastTested(clause, t, {}, env, j, |clause|), item, j) {
        assert j < |checks| && checks[j].Some? ==> Test(checks[j].value, CellOf(item, j), item);
      }
    }
    if Admits(indexed, clause, t, {}, env) {
      forall j | 0 <= j < |checks| && checks[j].Some? ensures Test(checks[j].value, CellOf(item, j), item) {
        assert TestOk(LastTested(clause, t, {}, env, j, |clause|), item, j);
      }
    }
  }

  /** What is found with a row of the first table: what the other tables add to it under the residual clause. */
  lemma FindsFirst(indexed: Indexed, clause: Clause, t: Name, plan: seq<Name>, env: Env, checks: seq<Option<Check>>)
    requires t !in plan && t in env
    requires forall i {:trigger clause[i]} ::
               0 <= i < |clause| && Local(clause[i], t) ==> clause[i].left.offset < |checks|
    requires forall j :: 0 <= j < |checks| ==> checks[j] == LastOn(clause, t, j, |clause|)
    ensures Finds(indexed, clause, {}, [t] + plan, env) <==>
              && Passes(checks, env[t]) && PinOk(AskedFor(clause, FirstPin(indexed, t, clause, 0)), env[t])
              && Finds(indexed, Residual(clause, t, env[t]), {}, plan, env - {t})
  {
    FirstAdmits(indexed, clause, t, env, checks);
    FindsAfter(indexed, clause, t, {}, plan, env);
    FindsWithout(indexed, Residual(clause, t, env[t]), {}, plan, env, t);
    assert ([t] + plan)[1..] == plan && {} + {t} == {t};
  }

  // ---------- which combinations are found, conjunct by conjunct ----------

  /** The tables that are taken before position `k` of a plan. */
  ghost function TakenBefore(plan: seq<Name>, k: nat): set<Name>
    requires k <= |plan|
  {
    set i | 0 <= i < k :: plan[i]
  }

  lemma BeforeTail(plan: seq<Name>, k: nat)
    requires 0 < k < |plan|
    ensures TakenBefore(plan, k) == {plan[0]} + TakenBefore(plan[1..], k - 1)
  {
    var rest := plan[1..];
    forall x | x in TakenBefore(plan, k) ensures x in {plan[0]} + TakenBefore(rest, k - 1) {
      var i :| 0 <= i < k && plan[i] == x;
      if i > 0 {
        assert rest[i - 1] == x;
      }
    }
    forall x | x in TakenBefore(rest, k - 1) ensures x in TakenBefore(plan, k) {
      var i :| 0 <= i < k - 1 && rest[i] == x;
      assert plan[i + 1] == x;
    }
  }

  lemma {:induction false} FindsIs(indexed: Indexed, clause: Clause, before: set<Name>, plan: seq<Name>, env: Env)
    ensures Finds(indexed, clause, before, plan, env) <==>
              forall k {:trigger plan[k]} :: 0 <= k < |plan| ==>
                Admits(indexed, clause, plan[k], before + TakenBefore(plan, k), env)
    decreases |plan|
  {
    if plan == [] {
    } else {
      var rest, next := plan[1..], before + {plan[0]};
      FindsIs(indexed, clause, next, rest, env);
      assert before + TakenBefore(plan, 0) == before;
      forall k | 0 < k < |plan|
        ensures rest[k - 1] == plan[k] && next + TakenBefore(rest, k - 1) == before + TakenBefore(plan, k)
      {
        BeforeTail(plan, k);
      }
      if forall k {:trigger plan[k]} :: 0 <= k < |plan| ==>
           Admits(indexed, clause, plan[k], before + TakenBefore(plan, k), env)
      {
        assert Admits(indexed, clause, plan[0], before, env);
        forall k | 0 <= k < |rest| ensures Admits(indexed, clause, rest[k], next + TakenBefore(rest, k), env) {
          assert rest[k] == plan[k + 1];
        }
      }
    }
  }

  ghost predicate SameSlot(c: Conjunct, d: Conjunct, x: Name, before: set<Name>, env: Env) {
    var r, q := Tested(c, x, before, env), Tested(d, x, before, env);
    r.Some? && q.Some? && r.value.0 == q.value.0
  }

  /** A later conjunct tests the same column when table `x` is taken. */
  ghost predicate Overruled(clause: Clause, i: nat, x: Name, before: set<Name>, env: Env)
    requires i < |clause|
  {
    exists m {:trigger clause[m]} :: i < m < |clause| && SameSlot(clause[i], clause[m], x, before, env)
  }

  ghost predicate LookupOk(indexed: Indexed, clause: Clause, i: nat, x: Name, before: set<Name>, env: Env)
    requires i < |clause|
  {
    FirstPinned(indexed, clause, x, before, env, i).None? ==>
      PinOk(Pin(indexed, x, Tested(clause[i], x, before, env)), ItemOf(env, x))
  }

  /**
   A conjunct's own test at table `x` passes if it is the last one of its column, and its index lookup if it is the one
   whose value is looked up.
   */
  ghost predicate Passed(indexed: Indexed, clause: Clause, i: nat, x: Name, before: set<Name>, env: Env)
    requires i < |clause|
  {
    var r := Tested(clause[i], x, before, env);
    r.Some? ==>
      && (Overruled(clause, i, x, before, env) || TestOk(Some(r.value.1), ItemOf(env, x), r.value.0))
      && LookupOk(indexed, clause, i, x, before, env)
  }

  /** The last test of a column is that of the last conjunct that tests it. */
  lemma {:induction false} LastTestedIs(clause: Clause, x: Name, before: set<Name>, env: Env, j: nat, n: nat)
    returns (i: nat)
    requires n <= |clause|
    ensures LastTested(clause, x, before, env, j, n).Some? ==>
              i < n && Tested(clause[i], x, before, env) == Some((j, LastTested(clause, x, before, env, j, n).value))
    ensures forall k {:trigger clause[k]} ::
              0 <= k < n && (i < k || LastTested(clause, x, before, env, j, n).None?) ==>
                var r := Tested(clause[k], x, before, env); r.Some? ==> r.value.0 != j
  {
    if n == 0 {
      i := 0;
    } else {
      var r := Tested(clause[n - 1], x, before, env);
      if r.Some? && r.value.0 == j {
        i := n - 1;
      } else {
        i := LastTestedIs(clause, x, before, env, j, n - 1);
      }
    }
  }

  lemma LastStays(clause: Clause, x: Name, before: set<Name>, env: Env, i: nat)
    requires i < |clause| && Tested(clause[i], x, before, env).Some? && !Overruled(clause, i, x, before, env)
    ensures var r := Tested(clause[i], x, before, env).value;
      LastTested(clause, x, before, env, r.0, |clause|) == Some(r.1)
  {
    var r := Tested(clause[i], x, before, env).value;
    var k := LastTestedIs(clause, x, before, env, r.0, |clause|);
    assert clause[i] == clause[i];
    assert k < |clause| && clause[k] == clause[k];
  }

  /** The value that an index is asked for comes from the first conjunct with such a test. */
  lemma {:induction false} FirstPinnedIs(indexed: Indexed, clause: Clause, x: Name, before: set<Name>, env: Env, n: nat)
    returns (i: nat)
    requires n <= |clause|
    ensures FirstPinned(indexed, clause, x, before, env, n).Some? ==>
              && i < n && FirstPinned(indexed, clause, x, before, env, i).None?
              && Pin(indexed, x, Tested(clause[i], x, before, env)) == FirstPinned(indexed, clause, x, before, env, n)
  {
    if n == 0 {
      i := 0;
    } else if FirstPinned(indexed, clause, x, before, env, n - 1).Some? {
      i := FirstPinnedIs(indexed, clause, x, before, env, n - 1);
    } else {
      i := n - 1;
    }
  }

  /** A row is admitted exactly if it passes for every conjunct. */
  lemma AdmitsExactly(indexed: Indexed, clause: Clause, x: Name, before: set<Name>, env: Env)
    ensures Admits(indexed, clause, x, before, env) <==>
              forall i :: 0 <= i < |clause| ==> Passed(indexed, clause, i, x, before, env)
  {
    var item := ItemOf(env, x);
    if Admits(indexed, clause, x, before, env) {
      forall i | 0 <= i < |clause| ensures Passed(indexed, clause, i, x, before, env) {
        var r := Tested(clause[i], x, before, env);
        if r.Some? {
          if !Overruled(clause, i, x, before, env) {
            LastStays(clause, x, before, env, i);
            assert TestOk(LastTested(clause, x, before, env, r.value.0, |clause|), item, r.value.0);
          }
          if Pin(indexed, x, r).Some? && FirstPinned(indexed, clause, x, before, env, i).None? {
            FirstPinnedStays(indexed, clause, x, before, env, i + 1, |clause|);
          }
        }
      }
    }
    if forall i :: 0 <= i < |clause| ==> Passed(indexed, clause, i, x, before, env) {
      forall j: nat ensures TestOk(LastTested(clause, x, before, env, j, |clause|), item, j) {
        var i := LastTestedIs(clause, x, before, env, j, |clause|);
        assert i < |clause| ==> Passed(indexed, clause, i, x, before, env);
      }
      var i := FirstPinnedIs(indexed, clause, x, before, env, |clause|);
      assert i < |clause| ==> Passed(indexed, clause, i, x, before, env);
    }
  }

  /**
   The conjunct does not decide when table `x` is taken: a later one has its place in the checker, or the value that it
   is to compare with is a null. All it can ask for then is the value that an index is looked up for.
   */
  ghost predicate LetThrough(indexed: Indexed, clause: Clause, i: nat, x: Name, before: set<Name>, env: Env)
    requires i < |clause|
  {
    var r := Tested(clause[i], x, before, env);
    && r.Some?
    && (Overruled(clause, i, x, before, env)
        || (IsComparison(r.value.1.op) && r.value.1.operand == Fixed(Null)))
    && LookupOk(indexed, clause, i, x, before, env)
  }

  /** A row passes for a conjunct that is tested there exactly if the conjunct holds or does not decide. */
  lemma PassedExactly(indexed: Indexed, clause: Clause, i: nat, x: Name, before: set<Name>, env: Env)
    requires NullTests(clause) && i < |clause| && x in env && Tested(clause[i], x, before, env).Some?
    ensures Passed(indexed, clause, i, x, before, env) <==>
              Meaning(clause[i], env) || LetThrough(indexed, clause, i, x, before, env)
  {
    var c := clause[i];
    FlipCompares(c.op, CellAt(env, c.left), ValueOf(env, c.right));
  }

  /** A conjunct is tested when the second of its tables is taken, and only then. */
  lemma TestedSomewhere(c: Conjunct, plan: seq<Name>, env: Env) returns (k: nat)
    requires c.left.table in plan && (c.right.Col? ==> c.right.ref.table in plan)
    ensures k < |plan| && Tested(c, plan[k], TakenBefore(plan, k), env).Some?
  {
    var a :| 0 <= a < |plan| && plan[a] == c.left.table;
    k := a;
    if c.right.Col? && c.right.ref.table != c.left.table {
      var b :| 0 <= b < |plan| && plan[b] == c.right.ref.table;
      k := if a < b then b else a;
      assert plan[if a < b then a else b] in TakenBefore(plan, k);
    }
  }

  lemma TestedOnce(c: Conjunct, plan: seq<Name>, env: Env, k: nat, m: nat)
    requires NoDuplicates(plan) && k < |plan| && m < |plan|
    requires Tested(c, plan[k], TakenBefore(plan, k), env).Some? && Tested(c, plan[m], TakenBefore(plan, m), env).Some?
    ensures k == m
  {
    assert plan[k] == plan[m] ==> k == m;
  }

  /** Where the conjunct is tested, it does not decide. */
  ghost predicate Unchecked(indexed: Indexed, clause: Clause, i: nat, plan: seq<Name>, env: Env)
    requires i < |clause|
  {
    exists k {:trigger plan[k]} :: 0 <= k < |plan|
      && LetThrough(indexed, clause, i, plan[k], TakenBefore(plan, k), env)
  }

  /** Clauses over the tables of a plan, with rows for all of them. */
  ghost predicate Spanned(clause: Clause, plan: seq<Name>, env: Env) {
    && NoDuplicates(plan) && (forall x :: x in plan ==> x in env)
    && forall i {:trigger clause[i]} :: 0 <= i < |clause| ==>
         clause[i].left.table in plan && (clause[i].right.Col? ==> clause[i].right.ref.table in plan)
  }

  ghost predicate PassedAlong(indexed: Indexed, clause: Clause, i: nat, plan: seq<Name>, env: Env)
    requires i < |clause|
  {
    forall k {:trigger plan[k]} :: 0 <= k < |plan| ==>
      Passed(indexed, clause, i, plan[k], TakenBefore(plan, k), env)
  }

  lemma PassedInPlan(indexed: Indexed, clause: Clause, i: nat, plan: seq<Name>, env: Env)
    requires NullTests(clause) && Spanned(clause, plan, env) && i < |clause|
    ensures PassedAlong(indexed, clause, i, plan, env) <==>
              Meaning(clause[i], env) || Unchecked(indexed, clause, i, plan, env)
  {
    assert clause[i] == clause[i];
    var k := TestedSomewhere(clause[i], plan, env);
    assert plan[k] in plan;
    PassedExactly(indexed, clause, i, plan[k], TakenBefore(plan, k), env);
    forall m | 0 <= m < |plan| && m != k
      ensures Tested(clause[i], plan[m], TakenBefore(plan, m), env).None?
    {
      if Tested(clause[i], plan[m], TakenBefore(plan, m), env).Some? {
        TestedOnce(clause[i], plan, env, k, m);
      }
    }
  }

  /**
   For every clause: a combination is found exactly if each conjunct holds, or does not decide because a later one tests
   the same column or because it compares with a null.
   */
  lemma FindsExactly(indexed: Indexed, clause: Clause, plan: seq<Name>, env: Env)
    requires NullTests(clause) && Spanned(clause, plan, env)
    ensures Finds(indexed, clause, {}, plan, env) <==>
              forall i {:trigger clause[i]} :: 0 <= i < |clause| ==>
                Meaning(clause[i], env) || Unchecked(indexed, clause, i, plan, env)
  {
    FindsIs(indexed, clause, {}, plan, env);
    forall k | 0 <= k < |plan|
      ensures {} + TakenBefore(plan, k) == TakenBefore(plan, k)
      ensures Admits(indexed, clause, plan[k], TakenBefore(plan, k), env) <==> forall i ::
                0 <= i < |clause| ==> Passed(indexed, clause, i, plan[k], TakenBefore(plan, k), env)
    {
      AdmitsExactly(indexed, clause, plan[k], TakenBefore(plan, k), env);
    }
    forall i | 0 <= i < |clause|
      ensures PassedAlong(indexed, clause, i, plan, env) <==>
                Meaning(clause[i], env) || Unchecked(indexed, clause, i, plan, env)
    {
      PassedInPlan(indexed, clause, i, plan, env);
    }
  }

  /** A comparison of two tables that is false for want of a value, and is found all the same. */
  lemma JoinOverNull()
    ensures var clause := [Conjunct(ColumnRef("a", 0), Eq, Col(ColumnRef("b", 0)))];
      var env := map["a" := [Null], "b" := [Int(1)]];
      Finds(map[], clause, {}, ["a", "b"], env) && !Holds(clause, env)
  {
    var c := Conjunct(ColumnRef("a", 0), Eq, Col(ColumnRef("b", 0)));
    var clause, env := [c], map["a" := [Null], "b" := [Int(1)]];
    assert !Meaning(clause[0], env);
    forall j: nat ensures TestOk(LastTested(clause, "a", {}, env, j, 1), [Null], j) {
      assert LastTested(clause, "a", {}, env, j, 0).None?;
    }
    forall j: nat ensures TestOk(LastTested(clause, "b", {} + {"a"}, env, j, 1), [Int(1)], j) {
      assert LastTested(clause, "b", {} + {"a"}, env, j, 0).None?;
    }
    assert FirstPinned(map[], clause, "a", {}, env, 0).None?
        && FirstPinned(map[], clause, "b", {} + {"a"}, env, 0).None?;
    assert Admits(map[], clause, "a", {}, env) && Admits(map[], clause, "b", {} + {"a"}, env);
    assert ["a", "b"][1..] == ["b"] && ["b"][1..] == [];
    assert Finds(map[], clause, {} + {"a"} + {"b"}, [], env);
    assert Finds(map[], clause, {} + {"a"}, ["b"], env);
  }
}
