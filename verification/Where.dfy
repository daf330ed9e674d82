/**
 WHERE clauses (src/Parser/AST/Nodes.cpp): what a conjunction means for an assignment of rows to tables, the checker
 that is compiled from it for one table, and its partial evaluation once a table has been given a row.
 */
module WhereClauses {
  import opened Locations
  import opened Rows

  type Name = string

  datatype Op = Eq | Lt | Gt | Ne | Le | Ge | IsNull | IsNotNull

  datatype ColumnRef = ColumnRef(table: Name, offset: nat)

  datatype Expr = Literal(value: Cell) | Col(ref: ColumnRef)

  datatype Conjunct = Conjunct(left: ColumnRef, op: Op, right: Expr)

  type Clause = seq<Conjunct>

  /** The row that every table was given. */
  type Env = map<Name, Item>

  // ---------- meaning ----------

  /** The order of strings: by the first character that differs. */
  predicate TextLess(a: string, b: string) {
    b != "" && (a == "" || a[0] < b[0] || (a[0] == b[0] && TextLess(a[1..], b[1..])))
  }

  predicate CellLess(a: Cell, b: Cell) {
    match (a, b)
    case (Int(x), Int(y)) => x < y
    case (Text(x), Text(y)) => TextLess(x, y)
    case _ => false
  }

  /** A comparison of two values that are not null. */
  predicate Compare(op: Op, a: Cell, b: Cell) {
    match op
    case Eq => a == b
    case Ne => a != b
    case Lt => CellLess(a, b)
    case Gt => CellLess(b, a)
    case Le => !CellLess(b, a)
    case Ge => !CellLess(a, b)
    case _ => true
  }

  predicate IsComparison(op: Op) {
    op != IsNull && op != IsNotNull
  }

  /** A cell of an item, null beyond its end. */
  function CellOf(item: Item, offset: nat): Cell {
    if offset < |item| then item[offset] else Null
  }

  function CellAt(env: Env, ref: ColumnRef): Cell {
    if ref.table in env then CellOf(env[ref.table], ref.offset) else Null
  }

  function ValueOf(env: Env, e: Expr): Cell {
    match e
    case Literal(v) => v
    case Col(ref) => CellAt(env, ref)
  }

  /** What a conjunct means: a comparison with null is false. */
  predicate Meaning(c: Conjunct, env: Env) {
    var a, b := CellAt(env, c.left), ValueOf(env, c.right);
    match c.op
    case IsNull => a == Null
    case IsNotNull => a != Null
    case _ => a != Null && b != Null && Compare(c.op, a, b)
  }

  ghost predicate Holds(clause: Clause, env: Env) {
    forall i {:trigger clause[i]} :: 0 <= i < |clause| ==> Meaning(clause[i], env)
  }

  // ---------- what the comparisons compute ----------

  /** Integers are compared as numbers. */
  predicate IntHolds(op: Op, x: int, y: int) {
    match op
    case Eq => x == y
    case Ne => x != y
    case Lt => x < y
    case Gt => x > y
    case Le => x <= y
    case Ge => x >= y
    case _ => true
  }

  lemma IntsCompared(op: Op, x: int, y: int)
    ensures Compare(op, Int(x), Int(y)) <==> IntHolds(op, x, y)
  {
  }

  /** The strings first differ at position `k`, where `a` has the lower character. */
  ghost predicate DifferAt(a: string, b: string, k: nat) {
    k < |a| && k < |b| && a[..k] == b[..k] && a[k] < b[k]
  }

  /** A string is lower if it is a proper prefix, or has the lower character where the two first differ. */
  lemma {:induction false} TextLessIs(a: string, b: string)
    ensures TextLess(a, b) <==> a < b || exists k: nat :: DifferAt(a, b, k)
  {
    if a == "" || b == "" {
      assert b != "" ==> "" < b;
    } else {
      var c, d := a[1..], b[1..];
      TextLessIs(c, d);
      if a[0] == b[0] {
        assert a == [a[0]] + c && b == [a[0]] + d;
        assert c < d ==> a < b;
        if a < b {
          assert c == d[..|c|];
        }
        forall k: nat | DifferAt(c, d, k) ensures DifferAt(a, b, k + 1) {
          assert a[..k + 1] == [a[0]] + c[..k] && b[..k + 1] == [a[0]] + d[..k];
        }
        forall k: nat | DifferAt(a, b, k) ensures k > 0 && DifferAt(c, d, k - 1) {
          assert a[..k][1..] == c[..k - 1] && b[..k][1..] == d[..k - 1];
        }
      } else {
        forall k: nat | DifferAt(a, b, k) ensures k == 0 {
          assert a[..k] == b[..k];
        }
        assert a[0] < b[0] ==> DifferAt(a, b, 0);
      }
    }
  }

  /** Strings are compared by a proper prefix or by the first difference. */
  ghost predicate TextHolds(op: Op, x: string, y: string) {
    var below, above := x < y || exists k: nat :: DifferAt(x, y, k), y < x || exists k: nat :: DifferAt(y, x, k);
    match op
    case Eq => x == y
    case Ne => x != y
    case Lt => below
    case Gt => above
    case Le => !above
    case Ge => !below
    case _ => true
  }

  lemma TextsCompared(op: Op, x: string, y: string)
    ensures Compare(op, Text(x), Text(y)) <==> TextHolds(op, x, y)
  {
    TextLessIs(x, y);
    TextLessIs(y, x);
  }

  /** Of two different strings one is lower. */
  lemma {:induction false} TextsDiffer(a: string, b: string)
    ensures a == b <==> !TextLess(a, b) && !TextLess(b, a)
    ensures !(TextLess(a, b) && TextLess(b, a))
  {
    if a == "" || b == "" {
    } else {
      TextsDiffer(a[1..], b[1..]);
      assert a == [a[0]] + a[1..] && b == [b[0]] + b[1..];
    }
  }

  lemma {:induction false} TextLessJoins(a: string, b: string, c: string)
    requires TextLess(a, b) && TextLess(b, c)
    ensures TextLess(a, c)
  {
    if a == "" {
    } else if a[0] == b[0] == c[0] {
      TextLessJoins(a[1..], b[1..], c[1..]);
    }
  }

  /** Two values of one kind. */
  predicate SameKind(a: Cell, b: Cell) {
    (a.Int? && b.Int?) || (a.Text? && b.Text?)
  }

  /** Of two values of one kind exactly one is lower, or they are equal; the other comparisons follow from these. */
  lemma ComparedExactly(a: Cell, b: Cell)
    requires SameKind(a, b)
    ensures Compare(Eq, a, b) <==> a == b
    ensures Compare(Eq, a, b) <==> !Compare(Lt, a, b) && !Compare(Gt, a, b)
    ensures !(Compare(Lt, a, b) && Compare(Gt, a, b))
    ensures Compare(Ne, a, b) <==> !Compare(Eq, a, b)
    ensures Compare(Le, a, b) <==> Compare(Lt, a, b) || Compare(Eq, a, b)
    ensures Compare(Ge, a, b) <==> Compare(Gt, a, b) || Compare(Eq, a, b)
  {
    if a.Text? {
      TextsDiffer(a.s, b.s);
    }
  }

  lemma ComparedInTurn(a: Cell, b: Cell, c: Cell)
    requires SameKind(a, b) && SameKind(b, c) && Compare(Lt, a, b) && Compare(Lt, b, c)
    ensures Compare(Lt, a, c)
  {
    if a.Text? {
      TextLessJoins(a.s, b.s, c.s);
    }
  }

  // ---------- the checker of one table ----------

  /** What the checker compares a cell with: a value, or another cell of the same item. */
  datatype Operand = Fixed(cell: Cell) | SameItem(offset: nat)

  datatype Check = Check(op: Op, operand: Operand)

  /**
   The test of one cell. A null operand is what IS NULL and IS NOT NULL come with; other operators then test nothing.
   */
  predicate Test(check: Check, a: Cell, item: Item) {
    if check.operand.Fixed? && check.operand.cell == Null then
      (check.op == IsNull ==> a == Null) && (check.op == IsNotNull ==> a != Null)
    else
      var b := if check.operand.Fixed? then check.operand.cell else CellOf(item, check.operand.offset);
      a != Null && b != Null && Compare(check.op, a, b)
  }

  predicate Passes(checks: seq<Option<Check>>, item: Item) {
    forall j {:trigger checks[j]} ::
      0 <= j < |checks| && checks[j].Some? ==> Test(checks[j].value, CellOf(item, j), item)
  }

  /** A conjunct about table `t` alone. */
  predicate Local(c: Conjunct, t: Name) {
    c.left.table == t && (c.right.Col? ==> c.right.ref.table == t)
  }

  function CheckOf(c: Conjunct): Check {
    Check(c.op, match c.right case Literal(v) => Fixed(v) case Col(ref) => SameItem(ref.offset))
  }

  /** The last of the first `n` conjuncts that is about column `j` of table `t` alone. */
  function LastOn(clause: Clause, t: Name, j: nat, n: nat): (r: Option<Check>)
    requires n <= |clause|
  {
    if n == 0 then None
    else if Local(clause[n - 1], t) && clause[n - 1].left.offset == j then Some(CheckOf(clause[n - 1]))
    else LastOn(clause, t, j, n - 1)
  }

  /** getChecker: one slot per column, filled by the conjuncts in order, so that the last one on a column stays. */
  method GetChecker(clause: Clause, t: Name, width: nat) returns (checks: seq<Option<Check>>)
    requires forall i {:trigger clause[i]} :: 0 <= i < |clause| && Local(clause[i], t) ==> clause[i].left.offset < width
    ensures |checks| == width && forall j :: 0 <= j < width ==> checks[j] == LastOn(clause, t, j, |clause|)
  {
    checks := seq(width, _ => None);
    for i := 0 to |clause|
      invariant |checks| == width && forall j :: 0 <= j < width ==> checks[j] == LastOn(clause, t, j, i)
    {
      if Local(clause[i], t) {
        checks := checks[clause[i].left.offset := Some(CheckOf(clause[i]))];
      }
    }
  }

  /**
   What the checker of a table makes of a conjunct: like its meaning, but a comparison with a literal null tests
   nothing.
   */
  predicate Checked(c: Conjunct, env: Env) {
    if c.right == Literal(Null) && IsComparison(c.op) then true else Meaning(c, env)
  }

  lemma TestIsChecked(c: Conjunct, t: Name, item: Item, env: Env)
    requires Local(c, t) && t in env && env[t] == item
        && (c.op == IsNull || c.op == IsNotNull ==> c.right == Literal(Null))
    ensures Test(CheckOf(c), CellOf(item, c.left.offset), item) == Checked(c, env)
  {
  }

  /** The columns whose slot a conjunct may fill, now or after the other table was given a row. */
  function Targets(c: Conjunct): set<ColumnRef> {
    {c.left} + if c.right.Col? && c.right.ref.table != c.left.table then {c.right.ref} else {}
  }

  ghost predicate ApartFrom(clause: Clause, i: nat, j: nat)
    requires i < |clause| && j < |clause|
  {
    i != j ==> Targets(clause[i]) !! Targets(clause[j])
  }

  /** No column is compared in two conjuncts. */
  ghost predicate OnePerColumn(clause: Clause) {
    forall i, j {:trigger ApartFrom(clause, i, j)} | 0 <= i < |clause| && 0 <= j < |clause| :: ApartFrom(clause, i, j)
  }

  /** None of the first `n` conjuncts after the `i`-th is about the same column of `t` alone. */
  ghost predicate Stays(clause: Clause, t: Name, i: nat, n: nat)
    requires i < |clause| && n <= |clause|
  {
    forall k {:trigger clause[k]} :: i < k < n && Local(clause[k], t) ==> clause[k].left.offset != clause[i].left.offset
  }

  /** The conjunct that a slot comes from: the last one about the column, if there is any. */
  lemma {:induction false} LastOnIs(clause: Clause, t: Name, j: nat, n: nat) returns (i: nat)
    requires n <= |clause|
    ensures LastOn(clause, t, j, n).None? ==>
              forall k {:trigger clause[k]} :: 0 <= k < n && Local(clause[k], t) ==> clause[k].left.offset != j
    ensures LastOn(clause, t, j, n).Some? ==>
              && i < n && Local(clause[i], t) && clause[i].left.offset == j && Stays(clause, t, i, n)
              && LastOn(clause, t, j, n) == Some(CheckOf(clause[i]))
  {
    if n == 0 {
      i := 0;
    } else if Local(clause[n - 1], t) && clause[n - 1].left.offset == j {
      i := n - 1;
    } else {
      i := LastOnIs(clause, t, j, n - 1);
    }
  }

  /** The conjunct that fills a slot is the last one about the column. */
  lemma {:induction false} SlotOf(clause: Clause, t: Name, i: nat, n: nat)
    requires i < n <= |clause| && Local(clause[i], t) && Stays(clause, t, i, n)
    ensures LastOn(clause, t, clause[i].left.offset, n) == Some(CheckOf(clause[i]))
  {
    if n == i + 1 {
    } else {
      SlotOf(clause, t, i, n - 1);
    }
  }

  /** A null operand comes with IS NULL and IS NOT NULL, and only they come without another one. */
  ghost predicate NullTests(clause: Clause) {
    forall i {:trigger clause[i]} ::
      0 <= i < |clause| && !IsComparison(clause[i].op) ==> clause[i].right == Literal(Null)
  }

  /**
   The checker accepts exactly the items for which, column by column, the last conjunct about the table alone holds.
   */
  lemma CheckerExactly(clause: Clause, t: Name, checks: seq<Option<Check>>, item: Item, env: Env)
    requires NullTests(clause) && t in env && env[t] == item
    requires forall i {:trigger clause[i]} ::
               0 <= i < |clause| && Local(clause[i], t) ==> clause[i].left.offset < |checks|
    requires forall j :: 0 <= j < |checks| ==> checks[j] == LastOn(clause, t, j, |clause|)
    ensures Passes(checks, item) <==>
              forall i {:trigger clause[i]} :: 0 <= i < |clause| && Local(clause[i], t) && Stays(clause, t, i, |clause|)
                ==> Checked(clause[i], env)
  {
    if Passes(checks, item) {
      forall i | 0 <= i < |clause| && Local(clause[i], t) && Stays(clause, t, i, |clause|)
        ensures Checked(clause[i], env)
      {
        SlotOf(clause, t, i, |clause|);
        assert checks[clause[i].left.offset] == Some(CheckOf(clause[i]));
        TestIsChecked(clause[i], t, item, env);
      }
    }
    if forall i {:trigger clause[i]} :: 0 <= i < |clause| && Local(clause[i], t) && Stays(clause, t, i, |clause|)
         ==> Checked(clause[i], env)
    {
      forall j | 0 <= j < |checks| && checks[j].Some? ensures Test(checks[j].value, CellOf(item, j), item) {
        var i := LastOnIs(clause, t, j, |clause|);
        TestIsChecked(clause[i], t, item, env);
      }
    }
  }

  /** Every conjunct about the table alone is the last one about its column. */
  ghost predicate OnlyOnce(clause: Clause, t: Name) {
    forall i {:trigger clause[i]} :: 0 <= i < |clause| && Local(clause[i], t) ==> Stays(clause, t, i, |clause|)
  }

  /**
   When no column is tested twice, the checker accepts exactly the items for which all conjuncts about the table hold.
   */
  lemma CheckerMeaning(clause: Clause, t: Name, checks: seq<Option<Check>>, item: Item, env: Env)
    requires OnlyOnce(clause, t) && NullTests(clause) && t in env && env[t] == item
    requires forall i {:trigger clause[i]} ::
               0 <= i < |clause| && Local(clause[i], t) ==> clause[i].left.offset < |checks|
    requires forall j :: 0 <= j < |checks| ==> checks[j] == LastOn(clause, t, j, |clause|)
    ensures Passes(checks, item) <==>
              forall i {:trigger clause[i]} :: 0 <= i < |clause| && Local(clause[i], t) ==> Checked(clause[i], env)
  {
    CheckerExactly(clause, t, checks, item, env);
  }

  /** Of two conjuncts on one column the checker keeps the last: 0 passes the checker of a > 1 AND a < 5. */
  lemma LastConjunctWins()
    ensures var a := ColumnRef("t", 0);
      var clause := [Conjunct(a, Gt, Literal(Int(1))), Conjunct(a, Lt, Literal(Int(5)))];
      && LastOn(clause, "t", 0, 2) == Some(Check(Lt, Fixed(Int(5))))
      && Passes([LastOn(clause, "t", 0, 2)], [Int(0)]) && !Holds(clause, map["t" := [Int(0)]])
  {
    var a := ColumnRef("t", 0);
    var clause := [Conjunct(a, Gt, Literal(Int(1))), Conjunct(a, Lt, Literal(Int(5)))];
    assert Local(clause[1], "t");
    assert !Meaning(clause[0], map["t" := [Int(0)]]);
  }

  // ---------- partial evaluation ----------

  function Flip(op: Op): Op {
    match op
    case Lt => Gt
    case Gt => Lt
    case Le => Ge
    case Ge => Le
    case _ => op
  }

  lemma FlipCompares(op: Op, a: Cell, b: Cell)
    ensures IsComparison(op) ==> Compare(Flip(op), b, a) == Compare(op, a, b)
  {
  }

  /** What is left of a conjunct once table `t` was given `item`: nothing, if it was about `t` alone. */
  function AssignOne(c: Conjunct, t: Name, item: Item): Option<Conjunct> {
    match c.right
    case Literal(_) => if c.left.table == t then None else Some(c)
    case Col(ref) =>
      if c.left.table == t && ref.table == t then None
      else if ref.table == t then Some(Conjunct(c.left, c.op, Literal(CellOf(item, ref.offset))))
      else if c.left.table == t then Some(Conjunct(ref, Flip(c.op), Literal(CellOf(item, c.left.offset))))
      else Some(c)
  }

  /** What is left of the first `n` conjuncts. */
  function AssignUpTo(clause: Clause, t: Name, item: Item, n: nat): Clause
    requires n <= |clause|
  {
    if n == 0 then []
    else
      var rest := AssignOne(clause[n - 1], t, item);
      if rest.Some? then AssignUpTo(clause, t, item, n - 1) + [rest.value] else AssignUpTo(clause, t, item, n - 1)
  }

  /** The clause that is left for the other tables. */
  function Residual(clause: Clause, t: Name, item: Item): Clause {
    AssignUpTo(clause, t, item, |clause|)
  }

  /** assign: a fresh clause with what is left of each conjunct. */
  method Assign(clause: Clause, t: Name, item: Item) returns (ret: Clause)
    ensures ret == Residual(clause, t, item)
  {
    ret := [];
    for i := 0 to |clause|
      invariant ret == AssignUpTo(clause, t, item, i)
    {
      var c := clause[i];
      match c.right {
        case Literal(_) =>
          if c.left.table != t {
            ret := ret + [c];
          }
        case Col(ref) =>
          if c.left.table == t && ref.table == t {
          } else if c.left.table != t && ref.table == t {
            ret := ret + [Conjunct(c.left, c.op, Literal(CellOf(item, ref.offset)))];
          } else if c.left.table != t && ref.table != t {
            ret := ret + [c];
          } else {
            ret := ret + [Conjunct(ref, Flip(c.op), Literal(CellOf(item, c.left.offset)))];
          }
      }
    }
  }

  /** The cell of the given row that a conjunct about two tables, one of them `t`, compares. */
  function Joined(c: Conjunct, t: Name, item: Item): Option<Cell> {
    if c.right.Literal? || (c.left.table == t) == (c.right.ref.table == t) then None
    else Some(CellOf(item, if c.left.table == t then c.left.offset else c.right.ref.offset))
  }

  /** A comparison of two tables survives partial evaluation exactly if the given row has a value there. */
  lemma JoinedExactly(c: Conjunct, t: Name, item: Item, env: Env)
    requires IsComparison(c.op) && t !in env && Joined(c, t, item).Some?
    ensures AssignOne(c, t, item).Some?
    ensures (Checked(AssignOne(c, t, item).value, env) <==> Meaning(c, env[t := item]))
        <==> Joined(c, t, item).value != Null
  {
    var rest, x := AssignOne(c, t, item).value, Joined(c, t, item).value;
    var other := if c.left.table == t then c.right.ref else c.left;
    assert CellAt(env[t := item], other) == CellAt(env, other);
    FlipCompares(c.op, CellAt(env[t := item], c.left), ValueOf(env[t := item], c.right));
  }

  /**
   What is left of a conjunct means for the other tables what the conjunct meant, unless the row has no value there.
   */
  lemma AssignOneMeaning(c: Conjunct, t: Name, item: Item, env: Env)
    requires t !in env && AssignOne(c, t, item).Some?
    requires IsComparison(c.op) || c.right.Literal?
    requires Joined(c, t, item) != Some(Null)
    ensures Meaning(AssignOne(c, t, item).value, env) == Meaning(c, env[t := item])
  {
    if Joined(c, t, item).Some? {
      JoinedExactly(c, t, item, env);
    }
  }

  /** The conjuncts of the residual are what is left of the conjuncts of the clause, in order. */
  lemma {:induction false} ResidualMember(clause: Clause, t: Name, item: Item, n: nat, r: Conjunct)
    requires n <= |clause|
    ensures r in AssignUpTo(clause, t, item, n) <==>
              exists i {:trigger clause[i]} :: 0 <= i < n && AssignOne(clause[i], t, item) == Some(r)
  {
    if n == 0 {
    } else {
      ResidualMember(clause, t, item, n - 1, r);
      assert clause[n - 1] == clause[n - 1];
    }
  }

  /** The residual holds exactly if what is left of every conjunct does. */
  lemma ResidualHolds(clause: Clause, t: Name, item: Item, env: Env)
    ensures Holds(Residual(clause, t, item), env) <==> forall i {:trigger clause[i]} ::
              0 <= i < |clause| && AssignOne(clause[i], t, item).Some? ==>
                Meaning(AssignOne(clause[i], t, item).value, env)
  {
    var rest := Residual(clause, t, item);
    if Holds(rest, env) {
      forall i | 0 <= i < |clause| && AssignOne(clause[i], t, item).Some?
        ensures Meaning(AssignOne(clause[i], t, item).value, env)
      {
        var r := AssignOne(clause[i], t, item).value;
        ResidualMember(clause, t, item, |clause|, r);
        var k :| 0 <= k < |rest| && rest[k] == r;
      }
    } else {
      var k :| 0 <= k < |rest| && !Meaning(rest[k], env);
      ResidualMember(clause, t, item, |clause|, rest[k]);
      var i :| 0 <= i < |clause| && AssignOne(clause[i], t, item) == Some(rest[k]);
    }
  }

  /**
   Nothing is compared with a null: no literal null by a conjunct about `t` alone, and no missing value of the row.
   */
  ghost predicate Definite(clause: Clause, t: Name, item: Item) {
    forall i {:trigger clause[i]} :: 0 <= i < |clause| ==>
      && (Local(clause[i], t) && IsComparison(clause[i].op) ==> clause[i].right != Literal(Null))
      && Joined(clause[i], t, item) != Some(Null)
  }

  /**
   Partial evaluation is correct: a clause holds with `item` for table `t` exactly if the item passes the checker of
   `t` and the residual clause holds for the other tables.
   */
  lemma PartialEvaluation(clause: Clause, t: Name, item: Item, checks: seq<Option<Check>>, env: Env)
    requires NullTests(clause) && OnlyOnce(clause, t) && Definite(clause, t, item) && t !in env
    requires forall i {:trigger clause[i]} ::
               0 <= i < |clause| && Local(clause[i], t) ==> clause[i].left.offset < |checks|
    requires forall j :: 0 <= j < |checks| ==> checks[j] == LastOn(clause, t, j, |clause|)
    ensures Holds(clause, env[t := item]) <==> Passes(checks, item) && Holds(Residual(clause, t, item), env)
  {
    var all := env[t := item];
    CheckerMeaning(clause, t, checks, item, all);
    ResidualHolds(clause, t, item, env);
    forall i | 0 <= i < |clause|
      ensures Local(clause[i], t) ==> AssignOne(clause[i], t, item).None?
      ensures Local(clause[i], t) ==> Checked(clause[i], all) == Meaning(clause[i], all)
      ensures !Local(clause[i], t) ==> AssignOne(clause[i], t, item).Some?
      ensures !Local(clause[i], t) ==> Meaning(AssignOne(clause[i], t, item).value, env) == Meaning(clause[i], all)
    {
      if !Local(clause[i], t) {
        AssignOneMeaning(clause[i], t, item, env);
      }
    }
  }
}
