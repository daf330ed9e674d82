/**
 The depth-first join (src/Parser/AST/Nodes.cpp): pick a table, filter it, partially evaluate the clause with each of
 its rows, and go on with the other tables. For any clause over columns of the right types it finds the combinations
 that JoinMeanings describes. These are the rows of the cross product that satisfy the clause and, unless columns are
 compared twice or rows without a value are compared, no others.
 */
module Joins {
  import opened CrossProducts
  import opened JoinMeanings
  import opened Locations
  import opened Plans
  import opened Rows
  import opened WhereClauses
  import Tables

  type Schema = map<Name, seq<Column>>

  // ---------- what a query sees ----------

  /** The schema, the indexes there are, and the rows of every table. */
  datatype Snapshot = Snapshot(schema: Schema, indexed: Indexed, data: Data)

  ghost predicate RefOk(schema: Schema, tables: seq<Name>, ref: ColumnRef) {
    ref.table in tables && ref.table in schema && ref.offset < |schema[ref.table]|
  }

  /** A conjunct over existing columns, with operands of one type; a literal may be null. */
  ghost predicate Typed(schema: Schema, tables: seq<Name>, c: Conjunct) {
    && RefOk(schema, tables, c.left)
    && match c.right
       case Literal(v) => CellFits(schema[c.left.table][c.left.offset].kind, v) && (!IsComparison(c.op) ==> v == Null)
       case Col(ref) =>
         && IsComparison(c.op) && RefOk(schema, tables, ref)
         && schema[ref.table][ref.offset].kind == schema[c.left.table][c.left.offset].kind
  }

  ghost predicate DataOk(schema: Schema, tables: seq<Name>, data: Data) {
    forall t :: t in tables ==> t in schema && t in data && forall item :: item in data[t] ==> ItemFits(schema[t], item)
  }

  /** A query over existing tables, with columns that exist and operands of their types. */
  ghost predicate QueryOk(s: Snapshot, tables: seq<Name>, clause: Clause) {
    && NoDuplicates(tables) && "" !in tables && DataOk(s.schema, tables, s.data)
    && forall i {:trigger clause[i]} :: 0 <= i < |clause| ==> Typed(s.schema, tables, clause[i])
  }

  lemma TypedTests(s: Snapshot, tables: seq<Name>, clause: Clause)
    requires QueryOk(s, tables, clause)
    ensures NullTests(clause)
  {
    forall i | 0 <= i < |clause| && !IsComparison(clause[i].op) ensures clause[i].right == Literal(Null) {
      assert Typed(s.schema, tables, clause[i]);
    }
  }

  /** What is left of one conjunct is over the other tables. */
  lemma AssignOneTyped(s: Snapshot, tables: seq<Name>, clause: Clause, i: nat, t: Name, item: Item)
    requires QueryOk(s, tables, clause) && t in tables && item in s.data[t] && i < |clause|
    requires AssignOne(clause[i], t, item).Some?
    ensures Typed(s.schema, Others(tables, t), AssignOne(clause[i], t, item).value)
  {
    OthersMembers(tables, t);
    assert ItemFits(s.schema[t], item);
    assert Typed(s.schema, tables, clause[i]);
  }

  lemma RestOk(s: Snapshot, tables: seq<Name>, clause: Clause, t: Name, item: Item)
    requires QueryOk(s, tables, clause) && t in tables && item in s.data[t]
    ensures QueryOk(s, Others(tables, t), Residual(clause, t, item))
    ensures forall x :: x in Others(tables, t) <==> x in tables && x != t
  {
    var rest := Residual(clause, t, item);
    OthersMembers(tables, t);
    forall k | 0 <= k < |rest| ensures Typed(s.schema, Others(tables, t), rest[k]) {
      ResidualMember(clause, t, item, |clause|, rest[k]);
      var i :| 0 <= i < |clause| && AssignOne(clause[i], t, item) == Some(rest[k]);
      AssignOneTyped(s, tables, clause, i, t, item);
    }
  }

  /** With no table left nothing is left of the clause. */
  lemma NoConjuncts(s: Snapshot, clause: Clause)
    requires QueryOk(s, [], clause)
    ensures clause == []
  {
    assert |clause| == 0 || !Typed(s.schema, [], clause[0]);
  }

  // ---------- counting the rows that the join finds ----------

  /** How often the join finds a combination of rows. */
  ghost function Occurs(s: Snapshot, tables: seq<Name>, clause: Clause, env: Env): nat {
    if Finds(s.indexed, clause, {}, Plan(s.indexed, clause, tables), env) then CopiesOver(s.data, tables, env) else 0
  }

  /** The rows of the cross product that the join finds. */
  ghost function Found(s: Snapshot, tables: seq<Name>, clause: Clause): seq<Env>
    requires forall t :: t in tables ==> t in s.data
  {
    Filter(Cross(s.data, tables, |tables|), env => Finds(s.indexed, clause, {}, Plan(s.indexed, clause, tables), env))
  }

  /** The environments are what the join finds, in some order. */
  ghost predicate Answers(envs: seq<Env>, s: Snapshot, tables: seq<Name>, clause: Clause) {
    forall env {:trigger Occurs(s, tables, clause, env)} :: Count(envs, env) == Occurs(s, tables, clause, env)
  }

  lemma OccursInFound(s: Snapshot, tables: seq<Name>, clause: Clause, env: Env)
    requires (forall t :: t in tables ==> t in s.data) && NoDuplicates(tables)
    ensures multiset(Found(s, tables, clause))[env] == Occurs(s, tables, clause, env)
  {
    var cross := Cross(s.data, tables, |tables|);
    FilterCount(cross, e => Finds(s.indexed, clause, {}, Plan(s.indexed, clause, tables), e), env);
    CountIs(cross, env);
    CrossIsCopies(s.data, tables, env);
  }

  /** Counted combinations are those of the filtered cross product. */
  lemma AnswersAreFound(envs: seq<Env>, s: Snapshot, tables: seq<Name>, clause: Clause)
    requires (forall t :: t in tables ==> t in s.data) && NoDuplicates(tables) && Answers(envs, s, tables, clause)
    ensures multiset(envs) == multiset(Found(s, tables, clause))
  {
    forall env ensures multiset(envs)[env] == multiset(Found(s, tables, clause))[env] {
      assert Count(envs, env) == Occurs(s, tables, clause, env);
      CountIs(envs, env);
      OccursInFound(s, tables, clause, env);
    }
  }

  /** How often an environment was found after the first `n` items of table `t`. */
  ghost function SoFar(items: seq<Item>, n: nat, t: Name, s: Snapshot, rest: seq<Name>, clause: Clause, env: Env): nat
    requires n <= |items|
  {
    if t in env then Times(CountUpTo(items, env[t], n), Occurs(s, rest, Residual(clause, t, env[t]), env - {t})) else 0
  }

  ghost predicate FoundSoFar(envs: seq<Env>, items: seq<Item>, n: nat, t: Name, s: Snapshot, rest: seq<Name>,
                             clause: Clause)
    requires n <= |items|
  {
    forall env {:trigger SoFar(items, n, t, s, rest, clause, env)} ::
      Count(envs, env) == SoFar(items, n, t, s, rest, clause, env)
  }

  /** Environments that answer a query over other tables do not mention `t`. */
  lemma AnswersSpan(envs: seq<Env>, s: Snapshot, tables: seq<Name>, clause: Clause, env: Env, t: Name)
    requires Answers(envs, s, tables, clause) && env in envs && t !in tables
    ensures t !in env
  {
    CountIs(envs, env);
    assert Count(envs, env) == Occurs(s, tables, clause, env);
    assert SpansAt(env, tables, |tables|, t);
    AmongIs(tables, t, |tables|);
  }

  /** One item more: what was found for the other tables, each extended by the item. */
  lemma FoundOneMore(envs: seq<Env>, sub: seq<Env>, items: seq<Item>, n: nat, t: Name, s: Snapshot, rest: seq<Name>,
                     clause: Clause)
    requires n < |items| && t !in rest && FoundSoFar(envs, items, n, t, s, rest, clause)
    requires Answers(sub, s, rest, Residual(clause, t, items[n]))
    ensures FoundSoFar(envs + Extended(sub, t, items[n]), items, n + 1, t, s, rest, clause)
  {
    forall e | e in sub ensures t !in e {
      AnswersSpan(sub, s, rest, Residual(clause, t, items[n]), e, t);
    }
    var m := n + 1;
    forall env ensures Count(envs + Extended(sub, t, items[n]), env) == SoFar(items, m, t, s, rest, clause, env) {
      assert Count(envs, env) == SoFar(items, n, t, s, rest, clause, env);
      CountConcat(envs, Extended(sub, t, items[n]), env);
      ExtendedCount(sub, t, items[n], env);
      if t in env {
        var others := Occurs(s, rest, Residual(clause, t, env[t]), env - {t});
        assert items[n] == env[t] ==> Count(sub, env - {t}) == others;
        CountOneMore(CountUpTo(items, env[t], n), CountUpTo(items, env[t], m), others,
                     Count(Extended(sub, t, items[n]), env), items[n] == env[t]);
      }
    }
  }

  /**
   The items that the join takes from a table: those that pass the checker and what the index was asked for, in any
   order.
   */
  ghost predicate Selected(items: seq<Item>, rows: seq<Item>, checks: seq<Option<Check>>, asked: Option<(nat, Cell)>) {
    multiset(items) == multiset(Filter(rows, item => Passes(checks, item) && PinOk(asked, item)))
  }

  /** The checks are those of the clause for the table. */
  ghost predicate ChecksOf(checks: seq<Option<Check>>, schema: Schema, clause: Clause, t: Name) {
    && t in schema && |checks| == |schema[t]|
    && forall j :: 0 <= j < |checks| ==> checks[j] == LastOn(clause, t, j, |clause|)
  }

  /** The table that a query takes first, with its checks and the rows that it takes. */
  ghost predicate Chosen(s: Snapshot, tables: seq<Name>, clause: Clause, t: Name, items: seq<Item>,
                         checks: seq<Option<Check>>)
  {
    && QueryOk(s, tables, clause) && tables != [] && t == Choose(s.indexed, clause, tables).table
    && ChecksOf(checks, s.schema, clause, t)
    && Selected(items, s.data[t], checks, AskedFor(clause, FirstPin(s.indexed, t, clause, 0)))
  }

  /** The first table and the others. */
  lemma FindsOneTable(s: Snapshot, tables: seq<Name>, clause: Clause, t: Name, checks: seq<Option<Check>>, env: Env)
    requires QueryOk(s, tables, clause) && tables != [] && t == Choose(s.indexed, clause, tables).table
    requires ChecksOf(checks, s.schema, clause, t) && t in env
    ensures var rest := Residual(clause, t, env[t]);
      Finds(s.indexed, clause, {}, Plan(s.indexed, clause, tables), env) <==>
        && Passes(checks, env[t]) && PinOk(AskedFor(clause, FirstPin(s.indexed, t, clause, 0)), env[t])
        && Finds(s.indexed, rest, {}, Plan(s.indexed, rest, Others(tables, t)), env - {t})
  {
    var rest := Residual(clause, t, env[t]);
    var subplan := Plan(s.indexed, rest, Others(tables, t));
    PlanOfResidual(s.indexed, clause, tables, env[t]);
    OthersMembers(tables, t);
    PlanCovers(s.indexed, rest, Others(tables, t));
    forall i | 0 <= i < |clause| && Local(clause[i], t) ensures clause[i].left.offset < |checks| {
      assert Typed(s.schema, tables, clause[i]);
    }
    FindsFirst(s.indexed, clause, t, subplan, env, checks);
  }

  lemma SelectedCount(items: seq<Item>, rows: seq<Item>, checks: seq<Option<Check>>, asked: Option<(nat, Cell)>,
                      item: Item)
    requires Selected(items, rows, checks, asked)
    ensures Count(items, item) == if Passes(checks, item) && PinOk(asked, item) then Count(rows, item) else 0
    ensures item !in rows ==> Count(rows, item) == 0
  {
    FilterCount(rows, x => Passes(checks, x) && PinOk(asked, x), item);
    CountIs(rows, item);
    CountIs(items, item);
  }

  lemma Products(picked: nat, there: nat, copies: nat, passes: bool, holds: bool)
    requires picked == if passes then there else 0
    ensures Times(picked, if holds then copies else 0) == if passes && holds then Times(copies, there) else 0
  {
    Commute(picked, copies);
    TimesOne(picked);
  }

  lemma SoFarIsOccurs(items: seq<Item>, t: Name, s: Snapshot, tables: seq<Name>, clause: Clause,
                      checks: seq<Option<Check>>, env: Env)
    requires Chosen(s, tables, clause, t, items, checks)
    ensures SoFar(items, |items|, t, s, Others(tables, t), clause, env) == Occurs(s, tables, clause, env)
  {
    if t in env {
      var item, rest, asked := env[t], env - {t}, AskedFor(clause, FirstPin(s.indexed, t, clause, 0));
      var copies, others := CopiesOver(s.data, Others(tables, t), rest), Residual(clause, t, item);
      SelectedCount(items, s.data[t], checks, asked, item);
      PulledOver(s.data, tables, t, env);
      TimesOne(copies);
      FindsOneTable(s, tables, clause, t, checks, env);
      Products(Count(items, item), Count(s.data[t], item), copies, Passes(checks, item) && PinOk(asked, item),
               Finds(s.indexed, others, {}, Plan(s.indexed, others, Others(tables, t)), rest));
    } else {
      NotSpanned(s.data, tables, t, env);
    }
  }

  /** When all items of the table are through, everything was found. */
  lemma FoundAll(envs: seq<Env>, items: seq<Item>, t: Name, s: Snapshot, tables: seq<Name>, clause: Clause,
                 checks: seq<Option<Check>>)
    requires Chosen(s, tables, clause, t, items, checks)
    requires FoundSoFar(envs, items, |items|, t, s, Others(tables, t), clause)
    ensures Answers(envs, s, tables, clause)
  {
    forall env ensures Count(envs, env) == Occurs(s, tables, clause, env) {
      assert Count(envs, env) == SoFar(items, |items|, t, s, Others(tables, t), clause, env);
      SoFarIsOccurs(items, t, s, tables, clause, checks, env);
    }
  }

  // ---------- when the join finds the answer ----------

  /** The environment has a row of each table. */
  ghost predicate Over(data: Data, tables: seq<Name>, env: Env) {
    forall t :: t in tables ==> t in data && t in env && env[t] in data[t]
  }

  lemma {:induction false} CrossOver(data: Data, tables: seq<Name>, n: nat, env: Env)
    requires n <= |tables| && (forall t :: t in tables ==> t in data) && NoDuplicates(tables)
    requires env in Cross(data, tables, n)
    ensures forall k :: 0 <= k < n ==> tables[k] in env && env[tables[k]] in data[tables[k]]
  {
    if n == 0 {
    } else {
      var t := tables[n - 1];
      SpreadMember(Cross(data, tables, n - 1), t, data[t], |data[t]|, env);
      var e, item :| e in Cross(data, tables, n - 1) && item in data[t] && env == e[t := item];
      CrossOver(data, tables, n - 1, e);
    }
  }

  /** Every conjunct holds, or does not decide where the join tests it. */
  ghost predicate Tolerated(s: Snapshot, tables: seq<Name>, clause: Clause, env: Env) {
    forall i {:trigger clause[i]} :: 0 <= i < |clause| ==>
      Meaning(clause[i], env) || Unchecked(s.indexed, clause, i, Plan(s.indexed, clause, tables), env)
  }

  lemma FoundExactly(s: Snapshot, tables: seq<Name>, clause: Clause, env: Env)
    requires QueryOk(s, tables, clause) && Over(s.data, tables, env)
    ensures Finds(s.indexed, clause, {}, Plan(s.indexed, clause, tables), env) <==> Tolerated(s, tables, clause, env)
  {
    var plan := Plan(s.indexed, clause, tables);
    TypedTests(s, tables, clause);
    PlanCovers(s.indexed, clause, tables);
    forall i | 0 <= i < |clause|
      ensures clause[i].left.table in plan && (clause[i].right.Col? ==> clause[i].right.ref.table in plan)
    {
      assert Typed(s.schema, tables, clause[i]);
    }
    FindsExactly(s.indexed, clause, plan, env);
  }

  /** The combinations of rows that make every conjunct true or undecided. */
  ghost function AllTolerated(s: Snapshot, tables: seq<Name>, clause: Clause): seq<Env>
    requires forall t :: t in tables ==> t in s.data
  {
    Filter(Cross(s.data, tables, |tables|), env => Tolerated(s, tables, clause, env))
  }

  /** The join finds exactly these. */
  lemma FoundIsTolerated(s: Snapshot, tables: seq<Name>, clause: Clause)
    requires QueryOk(s, tables, clause)
    ensures multiset(Found(s, tables, clause)) == multiset(AllTolerated(s, tables, clause))
  {
    var cross, plan := Cross(s.data, tables, |tables|), Plan(s.indexed, clause, tables);
    forall env | env in cross ensures Finds(s.indexed, clause, {}, plan, env) == Tolerated(s, tables, clause, env) {
      CrossOver(s.data, tables, |tables|, env);
      FoundExactly(s, tables, clause, env);
    }
    FilterPermuted(cross, cross, env => Finds(s.indexed, clause, {}, plan, env),
                   env => Tolerated(s, tables, clause, env));
  }

  /**
   Whatever the clause, the result misses no row of the answer, and is the answer exactly if no combination of rows
   makes all conjuncts true or undecided and one of them false.
   */
  lemma AnswerExactly(s: Snapshot, tables: seq<Name>, clause: Clause)
    requires QueryOk(s, tables, clause)
    ensures multiset(Answer(s.data, tables, clause)) <= multiset(Found(s, tables, clause))
    ensures multiset(Answer(s.data, tables, clause)) == multiset(Found(s, tables, clause)) <==>
              forall env :: env in Cross(s.data, tables, |tables|) && Tolerated(s, tables, clause, env) ==>
                Holds(clause, env)
  {
    var cross := Cross(s.data, tables, |tables|);
    FoundIsTolerated(s, tables, clause);
    WiderFilter(cross, env => Holds(clause, env), env => Tolerated(s, tables, clause, env));
    forall env ensures env in AllTolerated(s, tables, clause) <==> env in cross && Tolerated(s, tables, clause, env) {
      FilterMember(cross, e => Tolerated(s, tables, clause, e), env);
    }
  }

  /** The items of a table have a value in a column. */
  ghost predicate NoNulls(data: Data, ref: ColumnRef) {
    ref.table in data && forall item :: item in data[ref.table] ==> CellOf(item, ref.offset) != Null
  }

  /** A literal null is not compared, and columns that are compared across tables hold none. */
  ghost predicate ComparesValues(data: Data, c: Conjunct) {
    && (c.right == Literal(Null) ==> !IsComparison(c.op))
    && (c.right.Col? && c.right.ref.table != c.left.table ==> NoNulls(data, c.left) && NoNulls(data, c.right.ref))
  }

  /** No column is compared twice, and none with a null. */
  ghost predicate Plain(data: Data, clause: Clause) {
    && OnePerColumn(clause)
    && forall i {:trigger clause[i]} :: 0 <= i < |clause| ==> ComparesValues(data, clause[i])
  }

  lemma DifferentSlots(c: Conjunct, d: Conjunct, x: Name, before: set<Name>, env: Env)
    requires Targets(c) !! Targets(d)
    ensures !SameSlot(c, d, x, before, env)
  {
    var r, q := Tested(c, x, before, env), Tested(d, x, before, env);
    if r.Some? && q.Some? {
      assert ColumnRef(x, r.value.0) in Targets(c) && ColumnRef(x, q.value.0) in Targets(d);
    }
  }

  /** In a plain clause every conjunct decides. */
  lemma PlainDecides(s: Snapshot, tables: seq<Name>, clause: Clause, env: Env, i: nat)
    requires Plain(s.data, clause) && Over(s.data, tables, env) && NoDuplicates(tables) && i < |clause|
    ensures !Unchecked(s.indexed, clause, i, Plan(s.indexed, clause, tables), env)
  {
    var plan := Plan(s.indexed, clause, tables);
    PlanCovers(s.indexed, clause, tables);
    forall k | 0 <= k < |plan| ensures !LetThrough(s.indexed, clause, i, plan[k], TakenBefore(plan, k), env) {
      assert ComparesValues(s.data, clause[i]);
      forall m | i < m < |clause| ensures !SameSlot(clause[i], clause[m], plan[k], TakenBefore(plan, k), env) {
        assert ApartFrom(clause, i, m);
        DifferentSlots(clause[i], clause[m], plan[k], TakenBefore(plan, k), env);
      }
    }
  }

  /** The result of a plain query is its answer. */
  lemma PlainFound(s: Snapshot, tables: seq<Name>, clause: Clause)
    requires QueryOk(s, tables, clause) && Plain(s.data, clause)
    ensures multiset(Found(s, tables, clause)) == multiset(Answer(s.data, tables, clause))
  {
    AnswerExactly(s, tables, clause);
    forall env | env in Cross(s.data, tables, |tables|) && Tolerated(s, tables, clause, env)
      ensures Holds(clause, env)
    {
      CrossOver(s.data, tables, |tables|, env);
      forall i | 0 <= i < |clause| ensures Meaning(clause[i], env) {
        PlainDecides(s, tables, clause, env, i);
      }
    }
  }

  // ---------- the rows of the result ----------

  /** The cells of an environment, table after table. */
  function Flat(plan: seq<Name>, env: Env): seq<Cell> {
    if plan == [] then [] else (if plan[0] in env then env[plan[0]] else []) + Flat(plan[1..], env)
  }

  lemma AppendTwice(a: seq<Cell>, b: seq<Cell>, c: seq<Cell>)
    ensures (a + b) + c == a + (b + c)
  {
  }

  lemma FlatStep(plan: seq<Name>, env: Env)
    requires plan != []
    ensures Flat(plan, env) == ItemOf(env, plan[0]) + Flat(plan[1..], env)
  {
  }

  /** The cells of the tables in the order of the tables. */
  lemma {:induction false} FlatJoin(a: seq<Name>, b: seq<Name>, env: Env)
    ensures Flat(a + b, env) == Flat(a, env) + Flat(b, env)
  {
    if a == [] {
      assert a + b == b;
    } else {
      FlatJoin(a[1..], b, env);
      FlatStep(a, env);
      FlatStep(a + b, env);
      assert (a + b)[0] == a[0] && (a + b)[1..] == a[1..] + b;
      AppendTwice(ItemOf(env, a[0]), Flat(a[1..], env), Flat(b, env));
    }
  }

  /** The result rows of some environments. */
  function RowsOf(prefix: seq<Cell>, plan: seq<Name>, envs: seq<Env>): (rows: seq<seq<Cell>>)
    ensures |rows| == |envs| && forall i :: 0 <= i < |envs| ==> rows[i] == prefix + Flat(plan, envs[i])
  {
    seq(|envs|, i requires 0 <= i < |envs| => prefix + Flat(plan, envs[i]))
  }

  lemma {:induction false} FlatSame(plan: seq<Name>, env: Env, t: Name, item: Item)
    requires t !in plan
    ensures Flat(plan, env[t := item]) == Flat(plan, env)
  {
    if plan == [] {
    } else {
      FlatSame(plan[1..], env, t, item);
    }
  }

  lemma RowsExtended(prefix: seq<Cell>, t: Name, item: Item, plan: seq<Name>, envs: seq<Env>)
    requires t !in plan
    ensures RowsOf(prefix, [t] + plan, Extended(envs, t, item)) == RowsOf(prefix + item, plan, envs)
  {
    assert ([t] + plan)[1..] == plan;
    ExtendedAt(envs, t, item, |envs|);
    forall i | 0 <= i < |envs|
      ensures prefix + Flat([t] + plan, envs[i][t := item]) == prefix + item + Flat(plan, envs[i])
    {
      FlatSame(plan, envs[i], t, item);
    }
  }

  lemma RowsAppend(prefix: seq<Cell>, plan: seq<Name>, a: seq<Env>, b: seq<Env>)
    ensures RowsOf(prefix, plan, a + b) == RowsOf(prefix, plan, a) + RowsOf(prefix, plan, b)
  {
  }

  ghost predicate LabelAt(labels: seq<Name>, plan: seq<Name>, k: nat, filled: bool) {
    k < |plan| && k < |labels| ==> labels[k] == plan[|plan| - 1 - k] || (!filled && labels[k] == "")
  }

  /** Permuted environments make permuted rows. */
  lemma {:induction false} RowsPermuted(prefix: seq<Cell>, plan: seq<Name>, a: seq<Env>, b: seq<Env>)
    requires multiset(a) == multiset(b)
    ensures multiset(RowsOf(prefix, plan, a)) == multiset(RowsOf(prefix, plan, b))
    decreases |a|
  {
    assert |a| == |multiset(a)| == |multiset(b)| == |b|;
    if a != [] {
      var e, front := a[|a| - 1], a[..|a| - 1];
      assert a == front + [e];
      var c, d := Parted(front, e, a, b);
      RowsPermuted(prefix, plan, front, c + d);
      RowsAppend(prefix, plan, front, [e]);
      RowsAppend(prefix, plan, c + [e], d);
      RowsAppend(prefix, plan, c, [e]);
      RowsAppend(prefix, plan, c, d);
    }
  }

  // ---------- a query over one table ----------

  lemma OneRow(t: Name, item: Item)
    ensures RowsOf([], [t], [map[t := item]]) == [item]
  {
    var env: Env, rows := map[t := item], RowsOf([], [t], [map[t := item]]);
    assert [t][1..] == [] && Flat([t], env) == env[t] + Flat([], env) == item;
    assert rows[0] == [] + Flat([t], env) == item;
  }

  lemma SpreadOne(t: Name, items: seq<Item>, n: nat)
    requires 0 < n <= |items|
    ensures Spread([map[]], t, items, n) == Spread([map[]], t, items, n - 1) + [map[t := items[n - 1]]]
  {
    ExtendedAt([map[]], t, items[n - 1], 1);
    assert Extended([map[]], t, items[n - 1]) == [map[t := items[n - 1]]];
  }

  /** Filtered rows of one table as a result. */
  lemma {:induction false} OneTableRows(t: Name, items: seq<Item>, n: nat, p: Env -> bool, q: Item -> bool)
    requires n <= |items| && forall item :: item in items ==> p(map[t := item]) == q(item)
    ensures RowsOf([], [t], Filter(Spread([map[]], t, items, n), p)) == FilterUpTo(items, q, n)
  {
    if n == 0 {
    } else {
      var front, item := Spread([map[]], t, items, n - 1), items[n - 1];
      OneTableRows(t, items, n - 1, p, q);
      SpreadOne(t, items, n);
      FilterLast(front, map[t := item], p);
      RowsAppend([], [t], Filter(front, p), [map[t := item]]);
      OneRow(t, item);
    }
  }

  /** The rows that a test of column `c` against `v` is about, in terms of integers and of strings. */
  ghost function OnSide(c: nat, op: Op, v: Cell): Item -> bool {
    (item: Item) =>
      c < |item| &&
      match v
      case Int(i) => item[c].Int? && IntHolds(op, item[c].i, i)
      case Text(x) => item[c].Text? && TextHolds(op, item[c].s, x)
      case Null => item[c].Null? <==> op == IsNull
  }

  function OneTest(t: Name, c: nat, op: Op, v: Cell): Clause {
    [Conjunct(ColumnRef(t, c), op, Literal(v))]
  }

  /** A comparison with a value, or a test for null. */
  ghost predicate OneTestOk(s: Snapshot, t: Name, c: nat, op: Op, v: Cell) {
    QueryOk(s, [t], OneTest(t, c, op, v)) && (IsComparison(op) <==> v != Null)
  }

  lemma OneTableHolds(s: Snapshot, t: Name, c: nat, op: Op, v: Cell, item: Item)
    requires OneTestOk(s, t, c, op, v) && item in s.data[t]
    ensures Holds(OneTest(t, c, op, v), map[t := item]) == OnSide(c, op, v)(item)
  {
    var clause, env: Env := OneTest(t, c, op, v), map[t := item];
    assert Typed(s.schema, [t], clause[0]) && ItemFits(s.schema[t], item);
    assert Holds(clause, env) <==> Meaning(clause[0], env);
    if v.Text? && item[c].Text? {
      TextsCompared(op, item[c].s, v.s);
    }
  }

  lemma OneTablePlain(s: Snapshot, t: Name, c: nat, op: Op, v: Cell)
    requires OneTestOk(s, t, c, op, v)
    ensures Plain(s.data, OneTest(t, c, op, v))
  {
    assert ComparesValues(s.data, OneTest(t, c, op, v)[0]);
  }

  lemma OneTablePlan(indexed: Indexed, t: Name, clause: Clause)
    ensures Plan(indexed, clause, [t]) == [t]
  {
    PlanCovers(indexed, clause, [t]);
    var plan := Plan(indexed, clause, [t]);
    assert plan[0] in plan;
  }

  /** SELECT * FROM t WHERE t.c op v: the rows whose cell is on that side of `v`, or is null where that is asked. */
  lemma OneTableQuery(s: Snapshot, t: Name, c: nat, op: Op, v: Cell)
    requires OneTestOk(s, t, c, op, v)
    ensures var clause := OneTest(t, c, op, v);
      multiset(RowsOf([], Plan(s.indexed, clause, [t]), Found(s, [t], clause)))
      == multiset(Filter(s.data[t], OnSide(c, op, v)))
  {
    var clause, items := OneTest(t, c, op, v), s.data[t];
    OneTablePlain(s, t, c, op, v);
    OneTablePlan(s.indexed, t, clause);
    PlainFound(s, [t], clause);
    forall item | item in items ensures Holds(clause, map[t := item]) == OnSide(c, op, v)(item) {
      OneTableHolds(s, t, c, op, v, item);
    }
    OneTableRows(t, items, |items|, env => Holds(clause, env), OnSide(c, op, v));
    RowsPermuted([], [t], Found(s, [t], clause), Answer(s.data, [t], clause));
    assert Cross(s.data, [t], 1) == Spread([map[]], t, items, |items|);
  }

  /** What a comparison with a literal null lets through: everything, or what an index finds under the empty string. */
  ghost function NullSide(indexed: Indexed, t: Name, c: nat, op: Op): Item -> bool {
    (item: Item) => op == Eq && HasIndex(indexed, ColumnRef(t, c)) ==> c < |item| && item[c] == Text("")
  }

  lemma FindsNull(s: Snapshot, t: Name, c: nat, op: Op, item: Item)
    requires QueryOk(s, [t], OneTest(t, c, op, Null)) && IsComparison(op) && item in s.data[t]
    ensures Finds(s.indexed, OneTest(t, c, op, Null), {}, [t], map[t := item]) == NullSide(s.indexed, t, c, op)(item)
  {
    var clause, env: Env := OneTest(t, c, op, Null), map[t := item];
    assert Typed(s.schema, [t], clause[0]) && ItemFits(s.schema[t], item);
    forall j: nat ensures TestOk(LastTested(clause, t, {}, env, j, 1), item, j) {
      assert LastTested(clause, t, {}, env, j, 0).None?;
    }
    assert FirstPinned(s.indexed, clause, t, {}, env, 0).None?;
    assert [t][1..] == [] && Finds(s.indexed, clause, {} + {t}, [], env);
  }

  /** SELECT * FROM t WHERE t.c op NULL: every row, unless an index is asked for the empty string in place of null. */
  lemma OneTableNull(s: Snapshot, t: Name, c: nat, op: Op)
    requires QueryOk(s, [t], OneTest(t, c, op, Null)) && IsComparison(op)
    ensures var clause := OneTest(t, c, op, Null);
      RowsOf([], Plan(s.indexed, clause, [t]), Found(s, [t], clause)) ==
        Filter(s.data[t], NullSide(s.indexed, t, c, op))
  {
    var clause, items := OneTest(t, c, op, Null), s.data[t];
    OneTablePlan(s.indexed, t, clause);
    forall item | item in items
      ensures Finds(s.indexed, clause, {}, [t], map[t := item]) == NullSide(s.indexed, t, c, op)(item)
    {
      FindsNull(s, t, c, op, item);
    }
    OneTableRows(t, items, |items|, env => Finds(s.indexed, clause, {}, Plan(s.indexed, clause, [t]), env),
                 NullSide(s.indexed, t, c, op));
    assert Cross(s.data, [t], 1) == Spread([map[]], t, items, |items|);
  }

  /** The labels of the tables: slot `k` is for the table that is taken when `k` others are left. */
  ghost predicate Labels(labels: seq<Name>, plan: seq<Name>, filled: bool) {
    && |plan| <= |labels|
    && forall k {:trigger LabelAt(labels, plan, k, filled)} :: LabelAt(labels, plan, k, filled)
  }

  lemma LooseLabels(labels: seq<Name>, plan: seq<Name>, filled: bool)
    requires Labels(labels, plan, filled)
    ensures Labels(labels, plan, false)
  {
    forall k: nat ensures LabelAt(labels, plan, k, false) {
      assert LabelAt(labels, plan, k, filled);
    }
  }

  class Query {
    const tables: map<Name, Tables.Table>

    /** The result rows, and for every slot the table that was taken there. */
    var ans: seq<seq<Cell>>
    var labels: seq<Name>

    constructor (tables: map<Name, Tables.Table>)
      ensures this.tables == tables && ans == [] && labels == []
    {
      this.tables := tables;
      ans, labels := [], [];
    }

    ghost predicate SeesTable(s: Snapshot, t: Name)
      requires t in tables
      reads tables[t]
    {
      && tables[t].Valid() && t in s.schema && s.schema[t] == tables[t].columns
      && t in s.data && s.data[t] == tables[t].Items()
    }

    function Indexes(): Indexed
      reads set t | t in tables :: tables[t]
    {
      map t | t in tables :: tables[t].hasIndex
    }

    /** The database is as in the snapshot. */
    ghost predicate Sees(s: Snapshot)
      reads set t | t in tables :: tables[t]
    {
      && s.indexed == Indexes()
      && forall t {:trigger SeesTable(s, t)} | t in tables :: SeesTable(s, t)
    }

    /** The rows of one table that pass its checker: looked up in an index if a conjunct pins an indexed column. */
    method SelectItems(clause: Clause, pick: Pick, checks: seq<Option<Check>>, ghost s: Snapshot,
                       ghost names: seq<Name>)
      returns (items: seq<Item>)
      requires Sees(s) && pick.table in tables && QueryOk(s, names, clause)
      requires pick.pin.Some? ==> pick.pin.value < |clause| && Pinned(Indexes(), pick.table, clause[pick.pin.value])
      requires pick.table in s.data && ChecksOf(checks, s.schema, clause, pick.table)
      ensures Selected(items, s.data[pick.table], checks, AskedFor(clause, pick.pin))
    {
      assert SeesTable(s, pick.table);
      var td := tables[pick.table];
      var checker := (item: Item) => Passes(checks, item);
      ghost var asked := AskedFor(clause, pick.pin);
      if pick.pin.Some? {
        var c := clause[pick.pin.value];
        assert Typed(s.schema, names, c);
        items := td.SelectUseIndex(c.left.offset, PinCell(c.right.value), checker);
        FilterPermuted(td.Items(), td.Items(), Tables.Matching(c.left.offset, PinCell(c.right.value), checker),
                       item => Passes(checks, item) && PinOk(asked, item));
      } else {
        items := td.SelectUseChecker(checker);
        FilterPermuted(td.Items(), td.Items(), checker, item => Passes(checks, item) && PinOk(asked, item));
      }
    }

    /** The tables that are left, and the label of the one that is taken. */
    method TakeOut(names: seq<Name>, t: Name) returns (rest: seq<Name>)
      requires NoDuplicates(names) && t in names && |names| <= |labels|
      modifies this`labels
      ensures rest == Others(names, t)
      ensures var slot := |names| - 1;
        labels == old(labels)[slot := if old(labels)[slot] == "" then t else old(labels)[slot]]
    {
      rest := [];
      ghost var was, slot := labels, |names| - 1;
      for i := 0 to |names|
        invariant rest == OthersUpTo(names, t, i)
        invariant labels == was[slot := if Among(names, t, i) && was[slot] == "" then t else was[slot]]
      {
        if names[i] != t {
          rest := rest + [names[i]];
        } else if labels[|names| - 1] == "" {
          labels := labels[|names| - 1 := t];
        }
      }
      AmongIs(names, t, |names|);
    }

    static ghost predicate Kept(was: seq<Name>, now: seq<Name>, n: nat, k: nat) {
      k < |was| && k < |now| && (k >= n || was[k] != "") ==> now[k] == was[k]
    }

    /** Labels that were set are not set again, and those beyond the plan are left alone. */
    static ghost predicate LabelsKept(was: seq<Name>, now: seq<Name>, n: nat) {
      && |was| == |now| && n <= |now|
      && forall k {:trigger Kept(was, now, n, k)} :: Kept(was, now, n, k)
    }

    /** With no table left there is one combination, of no rows. */
    static lemma NothingLeft(s: Snapshot, clause: Clause)
      requires QueryOk(s, [], clause)
      ensures Answers([map[]], s, [], clause)
    {
      NoConjuncts(s, clause);
      forall env ensures Count([map[]], env) == Occurs(s, [], clause, env) {
        NoTables([], env);
      }
    }

    /** One item of a table: the join over the other tables, or a result row if there are none left. */
    method TakeItem(clause: Clause, t: Name, item: Item, rest: seq<Name>, merged: seq<Cell>, ghost s: Snapshot)
      returns (ghost sub: seq<Env>)
      requires Sees(s) && QueryOk(s, rest, Residual(clause, t, item)) && forall x :: x in rest ==> x in tables
      requires Labels(labels, Plan(s.indexed, Residual(clause, t, item), rest), false)
      modifies this
      ensures Answers(sub, s, rest, Residual(clause, t, item))
      ensures var plan := Plan(s.indexed, Residual(clause, t, item), rest);
        && ans == old(ans) + RowsOf(merged, plan, sub)
        && Labels(labels, plan, sub != []) && LabelsKept(old(labels), labels, |plan|)
      decreases |rest|, 1
    {
      if rest != [] {
        var residual := Assign(clause, t, item);
        sub := Dfs(residual, rest, merged, s);
      } else {
        sub := [map[]];
        NothingLeft(s, Residual(clause, t, item));
        assert Plan(s.indexed, Residual(clause, t, item), rest) == [];
        assert RowsOf(merged, [], sub)[0] == merged + Flat([], map[]) == merged;
        ans := ans + [merged];
      }
    }

    /** The result so far: the rows of `envs` after those that were there, and the labels that they need. */
    static ghost predicate Written(ans0: seq<seq<Cell>>, labels0: seq<Name>, ans: seq<seq<Cell>>, labels: seq<Name>,
                                   prefix: seq<Cell>, t: Name, subplan: seq<Name>, envs: seq<Env>) {
      && ans == ans0 + RowsOf(prefix, [t] + subplan, envs)
      && Labels(labels, subplan, envs != []) && LabelsKept(labels0, labels, |subplan| + 1) && labels[|subplan|] == t
    }

    static lemma StartWritten(ans: seq<seq<Cell>>, labels0: seq<Name>, labels: seq<Name>, prefix: seq<Cell>, t: Name,
                              subplan: seq<Name>)
      requires Labels(labels0, [t] + subplan, false)
      requires labels == labels0[|subplan| := if labels0[|subplan|] == "" then t else labels0[|subplan|]]
      ensures Written(ans, labels0, ans, labels, prefix, t, subplan, [])
    {
      var plan := [t] + subplan;
      assert LabelAt(labels0, plan, |subplan|, false);
      forall k: nat ensures LabelAt(labels, subplan, k, false) {
        assert LabelAt(labels0, plan, k, false);
        assert k < |subplan| ==> plan[|plan| - 1 - k] == subplan[|subplan| - 1 - k];
      }
      assert RowsOf(prefix, plan, []) == [];
    }

    static lemma EndWritten(ans0: seq<seq<Cell>>, labels0: seq<Name>, ans: seq<seq<Cell>>, labels: seq<Name>,
                            prefix: seq<Cell>, t: Name, subplan: seq<Name>, envs: seq<Env>)
      requires Written(ans0, labels0, ans, labels, prefix, t, subplan, envs)
      ensures ans == ans0 + RowsOf(prefix, [t] + subplan, envs)
      ensures Labels(labels, [t] + subplan, envs != []) && LabelsKept(labels0, labels, |[t] + subplan|)
    {
      var plan, filled := [t] + subplan, envs != [];
      forall k: nat ensures LabelAt(labels, plan, k, filled) {
        assert LabelAt(labels, subplan, k, filled);
        assert k < |subplan| ==> plan[|plan| - 1 - k] == subplan[|subplan| - 1 - k];
      }
    }

    static lemma Associate<T>(a: seq<T>, b: seq<T>, c: seq<T>)
      ensures (a + b) + c == a + (b + c)
    {
    }

    static lemma RowsOneMore(ans0: seq<seq<Cell>>, ans1: seq<seq<Cell>>, ans2: seq<seq<Cell>>, prefix: seq<Cell>,
                             t: Name, subplan: seq<Name>, item: Item, envs: seq<Env>, sub: seq<Env>)
      requires ans1 == ans0 + RowsOf(prefix, [t] + subplan, envs) && ans2 == ans1 + RowsOf(prefix + item, subplan, sub)
      requires t !in subplan
      ensures ans2 == ans0 + RowsOf(prefix, [t] + subplan, envs + Extended(sub, t, item))
    {
      RowsExtended(prefix, t, item, subplan, sub);
      RowsAppend(prefix, [t] + subplan, envs, Extended(sub, t, item));
      Associate(ans0, RowsOf(prefix, [t] + subplan, envs), RowsOf(prefix + item, subplan, sub));
    }

    static lemma LabelsOneMore(labels0: seq<Name>, labels1: seq<Name>, labels2: seq<Name>, t: Name, subplan: seq<Name>,
                               before: bool, now: bool)
      requires Labels(labels1, subplan, before) && LabelsKept(labels0, labels1, |subplan| + 1)
          && labels1[|subplan|] == t
      requires t != "" && "" !in subplan && Labels(labels2, subplan, now) && LabelsKept(labels1, labels2, |subplan|)
      ensures Labels(labels2, subplan, before || now) && LabelsKept(labels0, labels2, |subplan| + 1)
      ensures labels2[|subplan|] == t
    {
      var n, filled := |subplan| + 1, before || now;
      forall k: nat ensures LabelAt(labels2, subplan, k, filled) {
        assert LabelAt(labels2, subplan, k, now) && LabelAt(labels1, subplan, k, before)
            && Kept(labels1, labels2, |subplan|, k);
        assert k < |subplan| ==> subplan[|subplan| - 1 - k] in subplan;
      }
      forall k: nat ensures Kept(labels0, labels2, n, k) {
        assert Kept(labels0, labels1, n, k) && Kept(labels1, labels2, |subplan|, k);
      }
      assert Kept(labels1, labels2, |subplan|, |subplan|);
    }

    static lemma WrittenOneMore(ans0: seq<seq<Cell>>, labels0: seq<Name>, ans1: seq<seq<Cell>>, labels1: seq<Name>,
                                ans2: seq<seq<Cell>>, labels2: seq<Name>, prefix: seq<Cell>, t: Name,
                                subplan: seq<Name>,
                                item: Item, envs: seq<Env>, sub: seq<Env>)
      requires Written(ans0, labels0, ans1, labels1, prefix, t, subplan, envs) && t !in subplan
      requires ans2 == ans1 + RowsOf(prefix + item, subplan, sub) && "" !in subplan && t != ""
      requires Labels(labels2, subplan, sub != []) && LabelsKept(labels1, labels2, |subplan|)
      ensures Written(ans0, labels0, ans2, labels2, prefix, t, subplan, envs + Extended(sub, t, item))
    {
      RowsOneMore(ans0, ans1, ans2, prefix, t, subplan, item, envs, sub);
      LabelsOneMore(labels0, labels1, labels2, t, subplan, envs != [], sub != []);
      ExtendedAt(sub, t, item, |sub|);
      assert (envs + Extended(sub, t, item) != []) == (envs != [] || sub != []);
    }

    /** What one item leads to: a query over the other tables, which takes them in the same order. */
    static ghost predicate Ready(s: Snapshot, rest: seq<Name>, clause: Clause, t: Name, subplan: seq<Name>, item: Item)
    {
      && QueryOk(s, rest, Residual(clause, t, item)) && Plan(s.indexed, Residual(clause, t, item), rest) == subplan
      && t !in subplan && t != "" && "" !in subplan && t !in rest
    }

    static lemma SelectedMember(items: seq<Item>, rows: seq<Item>, checks: seq<Option<Check>>,
                                asked: Option<(nat, Cell)>, i: nat)
      requires Selected(items, rows, checks, asked) && i < |items|
      ensures items[i] in rows
    {
      var p := item => Passes(checks, item) && PinOk(asked, item);
      FilterMember(rows, p, items[i]);
      assert items[i] in multiset(items) && items[i] in multiset(Filter(rows, p));
    }

    static lemma ItemReady(s: Snapshot, names: seq<Name>, clause: Clause, t: Name, subplan: seq<Name>, items: seq<Item>,
                           checks: seq<Option<Check>>, i: nat)
      requires Chosen(s, names, clause, t, items, checks)
      requires Plan(s.indexed, clause, names) == [t] + subplan && i < |items|
      ensures Ready(s, Others(names, t), clause, t, subplan, items[i])
    {
      SelectedMember(items, s.data[t], checks, AskedFor(clause, FirstPin(s.indexed, t, clause, 0)), i);
      RestOk(s, names, clause, t, items[i]);
      PlanOfResidual(s.indexed, clause, names, items[i]);
      var rest, residual := Others(names, t), Residual(clause, t, items[i]);
      assert ([t] + subplan)[1..] == subplan
          && ([t] + Plan(s.indexed, residual, rest))[1..] == Plan(s.indexed, residual, rest);
      PlanCovers(s.indexed, residual, rest);
    }

    /** One turn of the loop of dfs. */
    method JoinItem(clause: Clause, t: Name, items: seq<Item>, i: nat, rest: seq<Name>, prefix: seq<Cell>,
                    ghost s: Snapshot, ghost subplan: seq<Name>, ghost envs: seq<Env>,
                    ghost ans0: seq<seq<Cell>>, ghost labels0: seq<Name>)
      returns (ghost envs': seq<Env>)
      requires Sees(s) && i < |items| && Ready(s, rest, clause, t, subplan, items[i])
      requires forall x :: x in rest ==> x in tables
      requires FoundSoFar(envs, items, i, t, s, rest, clause)
      requires Written(ans0, labels0, ans, labels, prefix, t, subplan, envs)
      modifies this
      ensures FoundSoFar(envs', items, i + 1, t, s, rest, clause)
      ensures Written(ans0, labels0, ans, labels, prefix, t, subplan, envs')
      decreases |rest|, 2
    {
      ghost var ans1, labels1 := ans, labels;
      LooseLabels(labels, subplan, envs != []);
      ghost var sub := TakeItem(clause, t, items[i], rest, prefix + items[i], s);
      FoundOneMore(envs, sub, items, i, t, s, rest, clause);
      WrittenOneMore(ans0, labels0, ans1, labels1, ans, labels, prefix, t, subplan, items[i], envs, sub);
      envs' := envs + Extended(sub, t, items[i]);
    }

    /** The loop of dfs over the items of the picked table. */
    method JoinItems(clause: Clause, t: Name, items: seq<Item>, rest: seq<Name>, prefix: seq<Cell>, ghost s: Snapshot,
                     ghost subplan: seq<Name>, ghost labels0: seq<Name>)
      returns (ghost envs: seq<Env>)
      requires Sees(s) && forall x :: x in rest ==> x in tables
      requires forall i :: 0 <= i < |items| ==> Ready(s, rest, clause, t, subplan, items[i])
      requires Written(ans, labels0, ans, labels, prefix, t, subplan, [])
      modifies this
      ensures FoundSoFar(envs, items, |items|, t, s, rest, clause)
      ensures Written(old(ans), labels0, ans, labels, prefix, t, subplan, envs)
      decreases |rest|, 3
    {
      envs := [];
      for i := 0 to |items|
        invariant FoundSoFar(envs, items, i, t, s, rest, clause)
        invariant Written(old(ans), labels0, ans, labels, prefix, t, subplan, envs)
      {
        envs := JoinItem(clause, t, items, i, rest, prefix, s, subplan, envs, old(ans), labels0);
      }
    }

    /** The items of the picked table, filtered by its checker. */
    method Filtered(clause: Clause, pick: Pick, ghost s: Snapshot, ghost names: seq<Name>)
      returns (items: seq<Item>, checks: seq<Option<Check>>)
      requires Sees(s) && QueryOk(s, names, clause) && pick.table in names && pick.table in tables
      requires pick.pin.Some? ==> pick.pin.value < |clause| && Pinned(Indexes(), pick.table, clause[pick.pin.value])
      ensures ChecksOf(checks, s.schema, clause, pick.table)
      ensures Selected(items, s.data[pick.table], checks, AskedFor(clause, pick.pin))
    {
      var t := pick.table;
      assert SeesTable(s, t);
      forall i | 0 <= i < |clause| && Local(clause[i], t) ensures clause[i].left.offset < |tables[t].columns| {
        assert Typed(s.schema, names, clause[i]);
      }
      checks := GetChecker(clause, t, |tables[t].columns|);
      items := SelectItems(clause, pick, checks, s, names);
    }

    /** The first half of dfs: the next table, the others, and the items that pass its checker. */
    method Begin(clause: Clause, names: seq<Name>, ghost s: Snapshot)
      returns (t: Name, rest: seq<Name>, items: seq<Item>, ghost checks: seq<Option<Check>>)
      requires Sees(s) && QueryOk(s, names, clause) && names != [] && forall t :: t in names ==> t in tables
      requires |names| <= |labels|
      modifies this`labels
      ensures t == Choose(s.indexed, clause, names).table && rest == Others(names, t)
      ensures var slot := |names| - 1;
        labels == old(labels)[slot := if old(labels)[slot] == "" then t else old(labels)[slot]]
      ensures Chosen(s, names, clause, t, items, checks)
    {
      var pick := NextTable(Indexes(), clause, names);
      ChosenPin(s.indexed, clause, names);
      t := pick.table;
      rest := TakeOut(names, t);
      items, checks := Filtered(clause, pick, s, names);
    }

    static lemma RestNames(s: Snapshot, names: seq<Name>, clause: Clause, t: Name)
      requires QueryOk(s, names, clause) && t in names
      ensures forall x :: x in Others(names, t) <==> x in names && x != t
      ensures |Others(names, t)| < |names|
    {
      OthersMembers(names, t);
      assert names[..|names|] == names;
    }

    /** What the picked table leads to: a smaller query for each of its items, all with the same order of tables. */
    static lemma Prepared(s: Snapshot, names: seq<Name>, clause: Clause, t: Name, items: seq<Item>,
                          checks: seq<Option<Check>>) returns (subplan: seq<Name>)
      requires Chosen(s, names, clause, t, items, checks)
      ensures Plan(s.indexed, clause, names) == [t] + subplan && |subplan| + 1 == |names|
      ensures forall i :: 0 <= i < |items| ==> Ready(s, Others(names, t), clause, t, subplan, items[i])
      ensures forall x :: x in Others(names, t) ==> x in names
      ensures |Others(names, t)| < |names|
    {
      PlanCovers(s.indexed, clause, names);
      subplan := Plan(s.indexed, clause, names)[1..];
      RestNames(s, names, clause, t);
      forall i | 0 <= i < |items| ensures Ready(s, Others(names, t), clause, t, subplan, items[i]) {
        ItemReady(s, names, clause, t, subplan, items, checks, i);
      }
    }

    /**
     dfs: the combinations that the join finds are appended to the result, each as the prefix and then its cells in
     the order of the plan. `envs` are these combinations as environments.
     */
    method Dfs(clause: Clause, names: seq<Name>, prefix: seq<Cell>, ghost s: Snapshot) returns (ghost envs: seq<Env>)
      requires Sees(s) && QueryOk(s, names, clause) && names != [] && forall t :: t in names ==> t in tables
      requires Labels(labels, Plan(s.indexed, clause, names), false)
      modifies this
      ensures Answers(envs, s, names, clause)
      ensures var plan := Plan(s.indexed, clause, names);
        && ans == old(ans) + RowsOf(prefix, plan, envs)
        && Labels(labels, plan, envs != []) && LabelsKept(old(labels), labels, |plan|)
      decreases |names|, 0
    {
      PlanCovers(s.indexed, clause, names);
      var t, rest, items, checks := Begin(clause, names, s);
      ghost var subplan := Prepared(s, names, clause, t, items, checks);
      StartWritten(ans, old(labels), labels, prefix, t, subplan);
      envs := JoinItems(clause, t, items, rest, prefix, s, subplan, old(labels));
      FoundAll(envs, items, t, s, names, clause, checks);
      EndWritten(old(ans), old(labels), ans, labels, prefix, t, subplan, envs);
    }

    /**
     SELECT * FROM names WHERE clause: as a multiset, the result is the rows of the cross product that the join finds.
     They are the rows that satisfy the clause if it is plain. The columns come table after table in the order of the
     plan, which holds every table once; where there is a result, the labels read from the last to the first are that
     order.
     */
    method Select(clause: Clause, names: seq<Name>, ghost s: Snapshot)
      requires Sees(s) && QueryOk(s, names, clause) && names != [] && forall t :: t in names ==> t in tables
      modifies this
      ensures multiset(ans) == multiset(RowsOf([], Plan(s.indexed, clause, names), Found(s, names, clause)))
      ensures Plain(s.data, clause) ==>
        multiset(ans) == multiset(RowsOf([], Plan(s.indexed, clause, names), Answer(s.data, names, clause)))
      ensures |labels| == |names| && (ans != [] ==> Labels(labels, Plan(s.indexed, clause, names), true))
    {
      ghost var plan := Plan(s.indexed, clause, names);
      PlanCovers(s.indexed, clause, names);
      ans, labels := [], seq(|names|, _ => "");
      ghost var envs := Dfs(clause, names, [], s);
      AnswersAreFound(envs, s, names, clause);
      RowsPermuted([], plan, envs, Found(s, names, clause));
      if Plain(s.data, clause) {
        PlainFound(s, names, clause);
        RowsPermuted([], plan, envs, Answer(s.data, names, clause));
      }
    }
  }
}
