/**
 The meaning of a SELECT over several tables: the rows of the cross product for which the WHERE clause holds, counted
 in a way that does not depend on the order of the tables.
 */
module CrossProducts {
  import opened Locations
  import opened Rows
  import opened WhereClauses

  /** The rows of every table. */
  type Data = map<Name, seq<Item>>

  function ExtendedUpTo(envs: seq<Env>, t: Name, item: Item, n: nat): seq<Env>
    requires n <= |envs|
  {
    if n == 0 then [] else ExtendedUpTo(envs, t, item, n - 1) + [envs[n - 1][t := item]]
  }

  /** The environments with `item` for table `t`. */
  function Extended(envs: seq<Env>, t: Name, item: Item): seq<Env> {
    ExtendedUpTo(envs, t, item, |envs|)
  }

  /** Every environment in `envs` with every one of the first `n` items for table `t`. */
  function Spread(envs: seq<Env>, t: Name, items: seq<Item>, n: nat): seq<Env>
    requires n <= |items|
  {
    if n == 0 then [] else Spread(envs, t, items, n - 1) + Extended(envs, t, items[n - 1])
  }

  lemma {:induction false} ExtendedAt(envs: seq<Env>, t: Name, item: Item, n: nat)
    requires n <= |envs|
    ensures |ExtendedUpTo(envs, t, item, n)| == n
    ensures forall i :: 0 <= i < n ==> ExtendedUpTo(envs, t, item, n)[i] == envs[i][t := item]
  {
    if n == 0 {
    } else {
      ExtendedAt(envs, t, item, n - 1);
    }
  }

  /** The cross product of the first `n` tables. */
  function Cross(data: Data, tables: seq<Name>, n: nat): seq<Env>
    requires n <= |tables| && forall t :: t in tables ==> t in data
  {
    if n == 0 then [map[]]
    else Spread(Cross(data, tables, n - 1), tables[n - 1], data[tables[n - 1]], |data[tables[n - 1]]|)
  }

  /** The answer to a query: the rows of the cross product that satisfy the clause. */
  ghost function Answer(data: Data, tables: seq<Name>, clause: Clause): seq<Env>
    requires forall t :: t in tables ==> t in data
  {
    Filter(Cross(data, tables, |tables|), env => Holds(clause, env))
  }

  // ---------- counts and products ----------

  /** How often `x` is among the first `n` elements. */
  function CountUpTo<T(==)>(s: seq<T>, x: T, n: nat): nat
    requires n <= |s|
  {
    if n == 0 then 0 else CountUpTo(s, x, n - 1) + if s[n - 1] == x then 1 else 0
  }

  function Count<T(==)>(s: seq<T>, x: T): nat {
    CountUpTo(s, x, |s|)
  }

  lemma {:induction false} CountUpToIs<T>(s: seq<T>, x: T, n: nat)
    requires n <= |s|
    ensures CountUpTo(s, x, n) == multiset(s[..n])[x]
  {
    if n == 0 {
    } else {
      CountUpToIs(s, x, n - 1);
      assert s[..n] == s[..n - 1] + [s[n - 1]];
    }
  }

  lemma CountIs<T>(s: seq<T>, x: T)
    ensures Count(s, x) == multiset(s)[x] && (Count(s, x) > 0 <==> x in s)
  {
    CountUpToIs(s, x, |s|);
    assert s[..|s|] == s;
    assert x in multiset(s) <==> x in s;
  }

  lemma CountConcat<T>(a: seq<T>, b: seq<T>, x: T)
    ensures Count(a + b, x) == Count(a, x) + Count(b, x)
  {
    CountIs(a, x);
    CountIs(b, x);
    CountIs(a + b, x);
  }

  lemma CountSingle<T>(x: T, y: T)
    ensures Count([x], y) == if x == y then 1 else 0
  {
    assert CountUpTo([x], y, 1) == CountUpTo([x], y, 0) + if [x][0] == y then 1 else 0;
  }

  /** The product of two counts, added up one by one. */
  ghost function Times(a: nat, b: nat): nat {
    if a == 0 then 0 else Times(a - 1, b) + b
  }

  lemma {:induction false} TimesIsProduct(a: nat, b: nat)
    ensures Times(a, b) == a * b
  {
    if a == 0 {
    } else {
      TimesIsProduct(a - 1, b);
    }
  }

  lemma Commute(a: nat, b: nat)
    ensures Times(a, b) == Times(b, a)
  {
    TimesIsProduct(a, b);
    TimesIsProduct(b, a);
  }

  lemma ProductsAssociate(x: nat, a: nat, m: nat)
    ensures x * (a * m) == (x * a) * m
  {
  }

  lemma Reassociate(x: nat, a: nat, m: nat)
    ensures Times(x, Times(a, m)) == Times(Times(x, a), m)
  {
    TimesIsProduct(x, Times(a, m));
    TimesIsProduct(a, m);
    TimesIsProduct(Times(x, a), m);
    TimesIsProduct(x, a);
    ProductsAssociate(x, a, m);
  }

  lemma TimesOne(a: nat)
    ensures Times(a, 1) == a && Times(a, 0) == 0
  {
    TimesIsProduct(a, 1);
    TimesIsProduct(a, 0);
  }

  // ---------- how often an environment occurs ----------

  /** `t` is one of the first `n` tables. */
  predicate Among(tables: seq<Name>, t: Name, n: nat)
    requires n <= |tables|
  {
    n > 0 && (tables[n - 1] == t || Among(tables, t, n - 1))
  }

  lemma {:induction false} AmongIs(tables: seq<Name>, t: Name, n: nat)
    requires n <= |tables|
    ensures Among(tables, t, n) <==> exists k :: 0 <= k < n && tables[k] == t
  {
    if n == 0 {
    } else {
      AmongIs(tables, t, n - 1);
    }
  }

  /** No table is there twice. */
  lemma NotAmong(tables: seq<Name>, n: nat)
    requires 0 < n <= |tables| && NoDuplicates(tables)
    ensures !Among(tables, tables[n - 1], n - 1)
  {
    AmongIs(tables, tables[n - 1], n - 1);
  }

  ghost predicate SpansAt(env: Env, tables: seq<Name>, n: nat, t: Name)
    requires n <= |tables|
  {
    t in env <==> Among(tables, t, n)
  }

  /** The tables of an environment are the first `n`. */
  ghost predicate Spans(env: Env, tables: seq<Name>, n: nat)
    requires n <= |tables|
  {
    forall t {:trigger SpansAt(env, tables, n, t)} :: SpansAt(env, tables, n, t)
  }

  /** How often the item that an environment has for table `t` is in the table. */
  ghost function Slot(data: Data, env: Env, t: Name): nat {
    if t in data && t in env then Count(data[t], env[t]) else 0
  }

  /** How often a row that takes these items from the first `n` tables occurs in their cross product. */
  ghost function Copies(data: Data, tables: seq<Name>, env: Env, n: nat): nat
    requires n <= |tables|
  {
    if n == 0 then 1 else Times(Slot(data, env, tables[n - 1]), Copies(data, tables, env, n - 1))
  }

  /** How often an environment occurs in the cross product of all the tables. */
  ghost function CopiesOver(data: Data, tables: seq<Name>, env: Env): nat {
    if Spans(env, tables, |tables|) then Copies(data, tables, env, |tables|) else 0
  }

  lemma ExtendsTo(e: Env, t: Name, item: Item, env: Env)
    requires t !in e
    ensures e[t := item] == env <==> t in env && env[t] == item && e == env - {t}
  {
    assert e[t := item] - {t} == e;
    assert t in env ==> (env - {t})[t := env[t]] == env;
  }

  lemma {:induction false} ExtendedCountUpTo(envs: seq<Env>, t: Name, item: Item, env: Env, n: nat)
    requires n <= |envs| && forall e :: e in envs ==> t !in e
    ensures Count(ExtendedUpTo(envs, t, item, n), env)
         == if t in env && env[t] == item then CountUpTo(envs, env - {t}, n) else 0
  {
    if n == 0 {
    } else {
      ExtendedCountUpTo(envs, t, item, env, n - 1);
      assert envs[n - 1] in envs;
      ExtendsTo(envs[n - 1], t, item, env);
      CountConcat(ExtendedUpTo(envs, t, item, n - 1), [envs[n - 1][t := item]], env);
      CountSingle(envs[n - 1][t := item], env);
    }
  }

  lemma ExtendedCount(envs: seq<Env>, t: Name, item: Item, env: Env)
    requires forall e :: e in envs ==> t !in e
    ensures Count(Extended(envs, t, item), env) == if t in env && env[t] == item then Count(envs, env - {t}) else 0
  {
    ExtendedCountUpTo(envs, t, item, env, |envs|);
  }

  lemma CountOneMore(a: nat, a': nat, b: nat, last: nat, hit: bool)
    requires a' == a + (if hit then 1 else 0) && last == if hit then b else 0
    ensures Times(a', b) == Times(a, b) + last
  {
  }

  /** An environment occurs once for every combination of its item and the rest of it. */
  lemma {:induction false} SpreadCount(envs: seq<Env>, t: Name, items: seq<Item>, n: nat, env: Env)
    requires n <= |items| && forall e :: e in envs ==> t !in e
    ensures Count(Spread(envs, t, items, n), env)
         == if t in env then Times(CountUpTo(items, env[t], n), Count(envs, env - {t})) else 0
  {
    if n == 0 {
    } else {
      SpreadCount(envs, t, items, n - 1, env);
      ExtendedCount(envs, t, items[n - 1], env);
      CountConcat(Spread(envs, t, items, n - 1), Extended(envs, t, items[n - 1]), env);
      if t in env {
        CountOneMore(CountUpTo(items, env[t], n - 1), CountUpTo(items, env[t], n), Count(envs, env - {t}),
                     Count(Extended(envs, t, items[n - 1]), env), items[n - 1] == env[t]);
      }
    }
  }

  lemma {:induction false} SpreadMember(envs: seq<Env>, t: Name, items: seq<Item>, n: nat, env: Env)
    requires n <= |items| && env in Spread(envs, t, items, n)
    ensures exists e, item :: e in envs && item in items && env == e[t := item]
  {
    if env in Extended(envs, t, items[n - 1]) {
      ExtendedAt(envs, t, items[n - 1], |envs|);
      var i :| 0 <= i < |envs| && Extended(envs, t, items[n - 1])[i] == env;
      assert envs[i] in envs && items[n - 1] in items && env == envs[i][t := items[n - 1]];
    } else {
      SpreadMember(envs, t, items, n - 1, env);
    }
  }

  /** The environments of a cross product have its tables. */
  lemma {:induction false} CrossSpans(data: Data, tables: seq<Name>, n: nat, env: Env)
    requires n <= |tables| && (forall t :: t in tables ==> t in data) && env in Cross(data, tables, n)
    ensures Spans(env, tables, n)
  {
    if n == 0 {
    } else {
      var t := tables[n - 1];
      SpreadMember(Cross(data, tables, n - 1), t, data[t], |data[t]|, env);
      var e, item :| e in Cross(data, tables, n - 1) && item in data[t] && env == e[t := item];
      CrossSpans(data, tables, n - 1, e);
      forall x ensures SpansAt(env, tables, n, x) {
        assert SpansAt(e, tables, n - 1, x);
      }
    }
  }

  lemma NoTables(tables: seq<Name>, env: Env)
    ensures Count([map[]], env) == if Spans(env, tables, 0) then 1 else 0
  {
    CountSingle(map[], env);
    if Spans(env, tables, 0) {
      forall t ensures t !in env {
        assert SpansAt(env, tables, 0, t);
      }
    }
  }

  lemma SpansOneLess(tables: seq<Name>, n: nat, env: Env)
    requires 0 < n <= |tables| && NoDuplicates(tables) && tables[n - 1] in env
    ensures Spans(env, tables, n) <==> Spans(env - {tables[n - 1]}, tables, n - 1)
  {
    var rest, m := env - {tables[n - 1]}, n - 1;
    NotAmong(tables, n);
    if Spans(env, tables, n) {
      forall t ensures SpansAt(rest, tables, m, t) {
        assert SpansAt(env, tables, n, t);
      }
    }
    if Spans(rest, tables, m) {
      forall t ensures SpansAt(env, tables, n, t) {
        assert SpansAt(rest, tables, m, t);
      }
    }
  }

  lemma CrossStep(data: Data, tables: seq<Name>, n: nat, env: Env)
    requires 0 < n <= |tables| && (forall t :: t in tables ==> t in data) && NoDuplicates(tables)
    ensures var t := tables[n - 1];
      Count(Cross(data, tables, n), env) ==
        if t in env then Times(Count(data[t], env[t]), Count(Cross(data, tables, n - 1), env - {t})) else 0
  {
    var t, before := tables[n - 1], Cross(data, tables, n - 1);
    NotAmong(tables, n);
    forall e | e in before ensures t !in e {
      CrossSpans(data, tables, n - 1, e);
      assert SpansAt(e, tables, n - 1, t);
    }
    SpreadCount(before, t, data[t], |data[t]|, env);
  }

  /** Copies over some tables do not depend on the item of another one. */
  lemma {:induction false} CopiesWithout(data: Data, tables: seq<Name>, env: Env, t: Name, n: nat)
    requires n <= |tables| && !Among(tables, t, n)
    ensures Copies(data, tables, env, n) == Copies(data, tables, env - {t}, n)
  {
    if n == 0 {
    } else {
      CopiesWithout(data, tables, env, t, n - 1);
    }
  }

  /** The cross product holds every environment over its tables, as often as its items occur. */
  lemma {:induction false} CrossCount(data: Data, tables: seq<Name>, n: nat, env: Env)
    requires n <= |tables| && (forall t :: t in tables ==> t in data) && NoDuplicates(tables)
    ensures Count(Cross(data, tables, n), env) == if Spans(env, tables, n) then Copies(data, tables, env, n) else 0
  {
    if n == 0 {
      NoTables(tables, env);
    } else {
      var t, rest := tables[n - 1], env - {tables[n - 1]};
      CrossStep(data, tables, n, env);
      if t in env {
        CrossCount(data, tables, n - 1, rest);
        NotAmong(tables, n);
        CopiesWithout(data, tables, env, t, n - 1);
        SpansOneLess(tables, n, env);
        TimesOne(Count(data[t], env[t]));
      } else {
        assert SpansAt(env, tables, n, t) ==> !Among(tables, t, n);
      }
    }
  }

  // ---------- taking one table out ----------

  /** The first `n` tables without `t`. */
  function OthersUpTo(tables: seq<Name>, t: Name, n: nat): (r: seq<Name>)
    requires n <= |tables|
  {
    if n == 0 then []
    else if tables[n - 1] == t then OthersUpTo(tables, t, n - 1)
    else OthersUpTo(tables, t, n - 1) + [tables[n - 1]]
  }

  function Others(tables: seq<Name>, t: Name): seq<Name> {
    OthersUpTo(tables, t, |tables|)
  }

  lemma {:induction false} OthersMember(tables: seq<Name>, t: Name, n: nat, x: Name)
    requires n <= |tables|
    ensures x in OthersUpTo(tables, t, n) <==> Among(tables, x, n) && x != t
  {
    if n == 0 {
    } else {
      OthersMember(tables, t, n - 1, x);
    }
  }

  lemma {:induction false} OthersDiffer(tables: seq<Name>, t: Name, n: nat)
    requires n <= |tables| && NoDuplicates(tables)
    ensures NoDuplicates(OthersUpTo(tables, t, n))
    ensures |OthersUpTo(tables, t, n)| == n - if Among(tables, t, n) then 1 else 0
  {
    if n == 0 {
    } else {
      OthersDiffer(tables, t, n - 1);
      OthersMember(tables, t, n - 1, tables[n - 1]);
      NotAmong(tables, n);
    }
  }

  /** The other tables: all but `t`, each once. */
  lemma OthersMembers(tables: seq<Name>, t: Name)
    requires NoDuplicates(tables)
    ensures NoDuplicates(Others(tables, t)) && |Others(tables, t)| == |tables| - if t in tables then 1 else 0
    ensures forall x :: x in Others(tables, t) <==> x in tables && x != t
  {
    OthersDiffer(tables, t, |tables|);
    AmongIs(tables, t, |tables|);
    forall x ensures x in Others(tables, t) <==> x in tables && x != t {
      OthersMember(tables, t, |tables|, x);
      AmongIs(tables, x, |tables|);
    }
  }

  lemma {:induction false} CopiesPrefix(data: Data, a: seq<Name>, x: Name, env: Env, n: nat)
    requires n <= |a|
    ensures Copies(data, a + [x], env, n) == Copies(data, a, env, n)
  {
    if n == 0 {
    } else {
      CopiesPrefix(data, a, x, env, n - 1);
    }
  }

  /** The number of copies is the same whichever table is counted last. */
  lemma {:induction false} PullOut(data: Data, tables: seq<Name>, t: Name, env: Env, n: nat)
    requires n <= |tables| && NoDuplicates(tables)
    ensures var rest := OthersUpTo(tables, t, n);
      Copies(data, tables, env, n) ==
        Times(Copies(data, rest, env - {t}, |rest|), if Among(tables, t, n) then Slot(data, env, t) else 1)
  {
    if n == 0 {
      TimesOne(1);
    } else {
      var x, a := tables[n - 1], OthersUpTo(tables, t, n - 1);
      var c := Copies(data, a, env - {t}, |a|);
      PullOut(data, tables, t, env, n - 1);
      NotAmong(tables, n);
      if x != t {
        CopiesPrefix(data, a, x, env - {t}, |a|);
        Reassociate(Slot(data, env, x), c, if Among(tables, t, n - 1) then Slot(data, env, t) else 1);
      } else {
        TimesOne(c);
        Commute(Slot(data, env, t), c);
      }
    }
  }

  lemma SplitSpans(tables: seq<Name>, t: Name, env: Env)
    requires NoDuplicates(tables) && t in tables && t in env
    ensures Spans(env, tables, |tables|) <==> Spans(env - {t}, Others(tables, t), |Others(tables, t)|)
  {
    var n, rest := |tables|, Others(tables, t);
    forall x ensures SpansAt(env, tables, n, x) <==> SpansAt(env - {t}, rest, |rest|, x) {
      OthersMember(tables, t, n, x);
      AmongIs(tables, t, n);
      AmongIs(rest, x, |rest|);
    }
    if Spans(env, tables, n) {
      forall x ensures SpansAt(env - {t}, rest, |rest|, x) {
        assert SpansAt(env, tables, n, x);
      }
    }
    if Spans(env - {t}, rest, |rest|) {
      forall x ensures SpansAt(env, tables, n, x) {
        assert SpansAt(env - {t}, rest, |rest|, x);
      }
    }
  }

  /** The copies of an environment are those of its item in one table, each with those of the rest. */
  lemma PulledOver(data: Data, tables: seq<Name>, t: Name, env: Env)
    requires NoDuplicates(tables) && t in tables && t in env
    ensures CopiesOver(data, tables, env) == Times(CopiesOver(data, Others(tables, t), env - {t}), Slot(data, env, t))
  {
    SplitSpans(tables, t, env);
    AmongIs(tables, t, |tables|);
    PullOut(data, tables, t, env, |tables|);
  }

  lemma NotSpanned(data: Data, tables: seq<Name>, t: Name, env: Env)
    requires t in tables && t !in env
    ensures CopiesOver(data, tables, env) == 0
  {
    AmongIs(tables, t, |tables|);
    assert !SpansAt(env, tables, |tables|, t);
  }

  // ---------- the order of the tables ----------

  lemma CrossIsCopies(data: Data, tables: seq<Name>, env: Env)
    requires NoDuplicates(tables) && forall t :: t in tables ==> t in data
    ensures Count(Cross(data, tables, |tables|), env) == CopiesOver(data, tables, env)
  {
    CrossCount(data, tables, |tables|, env);
  }

  lemma {:induction false} CopiesReordered(data: Data, a: seq<Name>, b: seq<Name>, env: Env)
    requires NoDuplicates(a) && NoDuplicates(b) && forall t :: t in a <==> t in b
    ensures Copies(data, a, env, |a|) == Copies(data, b, env, |b|)
    decreases |a|
  {
    assert |b| == 0 || b[0] in b;
    if a != [] {
      var t := a[|a| - 1];
      assert t in a && t in b;
      OthersMembers(a, t);
      OthersMembers(b, t);
      AmongIs(a, t, |a|);
      AmongIs(b, t, |b|);
      PullOut(data, a, t, env, |a|);
      PullOut(data, b, t, env, |b|);
      CopiesReordered(data, Others(a, t), Others(b, t), env - {t});
    }
  }

  lemma SpansReordered(a: seq<Name>, b: seq<Name>, env: Env)
    requires (forall t :: t in a <==> t in b) && Spans(env, a, |a|)
    ensures Spans(env, b, |b|)
  {
    forall t ensures SpansAt(env, b, |b|, t) {
      assert SpansAt(env, a, |a|, t);
      AmongIs(a, t, |a|);
      AmongIs(b, t, |b|);
      assert t in a <==> t in b;
    }
  }

  lemma OverReordered(data: Data, a: seq<Name>, b: seq<Name>, env: Env)
    requires NoDuplicates(a) && NoDuplicates(b) && forall t :: t in a <==> t in b
    ensures CopiesOver(data, a, env) == CopiesOver(data, b, env)
  {
    CopiesReordered(data, a, b, env);
    if Spans(env, a, |a|) {
      SpansReordered(a, b, env);
    }
    if Spans(env, b, |b|) {
      SpansReordered(b, a, env);
    }
  }

  /** The cross product is the same, up to the order of its rows, whatever order the tables are taken in. */
  lemma OrderIrrelevant(data: Data, a: seq<Name>, b: seq<Name>)
    requires NoDuplicates(a) && NoDuplicates(b) && forall t :: t in a <==> t in b
    requires forall t :: t in a ==> t in data
    ensures multiset(Cross(data, a, |a|)) == multiset(Cross(data, b, |b|))
  {
    forall env ensures multiset(Cross(data, a, |a|))[env] == multiset(Cross(data, b, |b|))[env] {
      CrossIsCopies(data, a, env);
      CrossIsCopies(data, b, env);
      CountIs(Cross(data, a, |a|), env);
      CountIs(Cross(data, b, |b|), env);
      OverReordered(data, a, b, env);
    }
  }
}
