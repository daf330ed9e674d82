/**
 A table with hash indexes (src/RecordManage/TableManager.cpp): rows in a record file, one index for some of the
 columns, and uniqueness enforced through the indexes.
 */
module Tables {
  import opened Indexes
  import opened Locations
  import opened Rows

  // ---------- what an insertion checks ----------

  /** An item that has the columns' types and no null where none is allowed. */
  predicate Admissible(columns: seq<Column>, item: Item) {
    ItemFits(columns, item) && forall i :: 0 <= i < |columns| && columns[i].notNull ==> item[i] != Null
  }

  /** A value in a column with this enforcement that some item already has. */
  predicate Taken(items: multiset<Item>, c: nat, v: Cell) {
    v != Null && exists x :: x in items && c < |x| && x[c] == v
  }

  /** The checks of column `c`: not null, and not taken if the column is unique and indexed. */
  predicate ColumnAccepts(columns: seq<Column>, hasIndex: seq<bool>, items: multiset<Item>, item: Item, c: nat)
    requires |hasIndex| == |columns| == |item| && c < |columns|
  {
    && (columns[c].notNull ==> item[c] != Null)
    && (columns[c].unique && hasIndex[c] ==> !Taken(items, c, item[c]))
  }

  predicate Accepts(columns: seq<Column>, hasIndex: seq<bool>, items: multiset<Item>, item: Item)
    requires |hasIndex| == |columns| == |item|
  {
    forall c {:trigger ColumnAccepts(columns, hasIndex, items, item, c)} | 0 <= c < |columns| ::
      ColumnAccepts(columns, hasIndex, items, item, c)
  }

  // ---------- re-insertion of updated rows ----------

  datatype Outcome = Updated(items: multiset<Item>) | DoubleFault(items: multiset<Item>)

  /** Every changed item still has the columns' types. */
  predicate Typed(columns: seq<Column>, items: seq<Item>, changer: Item -> Item) {
    forall i :: 0 <= i < |items| ==> ItemFits(columns, items[i]) && ItemFits(columns, changer(items[i]))
  }

  /** What one collected row comes back as: its change, else itself, else nothing. */
  function Comeback(columns: seq<Column>, hasIndex: seq<bool>, items: multiset<Item>, item: Item,
                    changed: Item): Option<Item>
    requires |hasIndex| == |columns| == |item| == |changed|
  {
    if Accepts(columns, hasIndex, items, changed) then Some(changed)
    else if Accepts(columns, hasIndex, items, item) then Some(item)
    else None
  }

  /** The live items after the collected rows from the `n`-th on were given back, one after the other. */
  function UpdateFrom(columns: seq<Column>, hasIndex: seq<bool>, items: multiset<Item>, collected: seq<Item>,
                      changer: Item -> Item, n: nat): Outcome
    requires |hasIndex| == |columns| && Typed(columns, collected, changer) && n <= |collected|
    decreases |collected| - n
  {
    if n == |collected| then Updated(items)
    else
      var back := Comeback(columns, hasIndex, items, collected[n], changer(collected[n]));
      if back.None? then DoubleFault(items)
      else UpdateFrom(columns, hasIndex, items + multiset{back.value}, collected, changer, n + 1)
  }

  /** What an update makes of the items that stayed and the rows it collected. */
  function AfterUpdate(columns: seq<Column>, hasIndex: seq<bool>, items: multiset<Item>, collected: seq<Item>,
                       changer: Item -> Item): Outcome
    requires |hasIndex| == |columns| && Typed(columns, collected, changer)
  {
    UpdateFrom(columns, hasIndex, items, collected, changer, 0)
  }

  /** What the first collected rows came back as: each changed, or as it was. */
  ghost predicate Back(collected: seq<Item>, changer: Item -> Item, back: seq<Item>) {
    |back| <= |collected| && forall i :: 0 <= i < |back| ==> back[i] == collected[i] || back[i] == changer(collected[i])
  }

  lemma {:induction false} RestComesBack(columns: seq<Column>, hasIndex: seq<bool>, items: multiset<Item>,
                                         collected: seq<Item>, changer: Item -> Item, back: seq<Item>)
    returns (all: seq<Item>)
    requires |hasIndex| == |columns| && Typed(columns, collected, changer) && Back(collected, changer, back)
    requires UpdateFrom(columns, hasIndex, items + multiset(back), collected, changer, |back|).Updated?
    ensures |all| == |collected| && Back(collected, changer, all)
    ensures UpdateFrom(columns, hasIndex, items + multiset(back), collected, changer, |back|).items ==
        items + multiset(all)
    decreases |collected| - |back|
  {
    var n := |back|;
    if n == |collected| {
      all := back;
    } else {
      var next := Comeback(columns, hasIndex, items + multiset(back), collected[n], changer(collected[n])).value;
      assert items + multiset(back) + multiset{next} == items + multiset(back + [next]);
      all := RestComesBack(columns, hasIndex, items, collected, changer, back + [next]);
    }
  }

  /** A statement that ends well gave every collected row back, changed or as it was. */
  lemma EveryRowComesBack(columns: seq<Column>, hasIndex: seq<bool>, items: multiset<Item>, collected: seq<Item>,
                          changer: Item -> Item)
    requires |hasIndex| == |columns| && Typed(columns, collected, changer)
    requires AfterUpdate(columns, hasIndex, items, collected, changer).Updated?
    ensures exists back :: |back| == |collected| && Back(collected, changer, back) &&
              AfterUpdate(columns, hasIndex, items, collected, changer).items == items + multiset(back)
  {
    assert items + multiset([]) == items;
    var back := RestComesBack(columns, hasIndex, items, collected, changer, []);
  }

  /** A column whose uniqueness insertions enforce. */
  predicate Enforced(columns: seq<Column>, hasIndex: seq<bool>, c: nat)
    requires |hasIndex| == |columns|
  {
    c < |columns| && columns[c].unique && hasIndex[c]
  }

  /** No other column has an index. */
  ghost predicate OnlyIndexed(columns: seq<Column>, hasIndex: seq<bool>, offset: nat)
    requires |hasIndex| == |columns|
  {
    forall c :: 0 <= c < |columns| && hasIndex[c] ==> c == offset
  }

  ghost predicate NoneMatches(items: seq<Item>, matches: Item -> bool) {
    forall x :: x in items ==> !matches(x)
  }

  /** The value of a collected row in an enforced column is neither in the table nor in another collected row. */
  ghost predicate ApartAt(columns: seq<Column>, hasIndex: seq<bool>, items: multiset<Item>, collected: seq<Item>,
                          c: nat, i: nat)
    requires |hasIndex| == |columns|
  {
    Enforced(columns, hasIndex, c) && i < |collected| && c < |collected[i]| ==>
      && !Taken(items, c, collected[i][c])
      && forall j :: 0 <= j < |collected| && j != i && c < |collected[j]| && collected[i][c] != Null ==>
                       collected[j][c] != collected[i][c]
  }

  ghost predicate Apart(columns: seq<Column>, hasIndex: seq<bool>, items: multiset<Item>, collected: seq<Item>)
    requires |hasIndex| == |columns|
  {
    forall c, i {:trigger ApartAt(columns, hasIndex, items, collected, c, i)} ::
      ApartAt(columns, hasIndex, items, collected, c, i)
  }

  /** A row that cannot come back, although the table admitted it before, was robbed of its value by an earlier one. */
  lemma RejectedIsRobbed(columns: seq<Column>, hasIndex: seq<bool>, items: multiset<Item>, collected: seq<Item>,
                         changer: Item -> Item, back: seq<Item>) returns (j: nat, c: nat)
    requires |hasIndex| == |columns| && Typed(columns, collected, changer)
    requires Apart(columns, hasIndex, items, collected) && Back(collected, changer, back) && |back| < |collected|
    requires Admissible(columns, collected[|back|])
    requires !Accepts(columns, hasIndex, items + multiset(back), collected[|back|])
    ensures j < |back| && Enforced(columns, hasIndex, c) && collected[|back|][c] != Null
    ensures changer(collected[j])[c] == collected[|back|][c] != collected[j][c]
  {
    var i := |back|;
    c :| 0 <= c < |columns| && !ColumnAccepts(columns, hasIndex, items + multiset(back), collected[i], c);
    assert ApartAt(columns, hasIndex, items, collected, c, i);
    var x :| x in items + multiset(back) && c < |x| && x[c] == collected[i][c];
    assert x in multiset(back);
    j :| 0 <= j < |back| && back[j] == x;
  }

  lemma {:induction false} TheftFrom(columns: seq<Column>, hasIndex: seq<bool>, items: multiset<Item>,
                                     collected: seq<Item>, changer: Item -> Item, back: seq<Item>)
    returns (i: nat, j: nat, c: nat)
    requires |hasIndex| == |columns| && Typed(columns, collected, changer)
    requires Apart(columns, hasIndex, items, collected) && Back(collected, changer, back)
    requires forall k :: 0 <= k < |collected| ==> Admissible(columns, collected[k])
    requires UpdateFrom(columns, hasIndex, items + multiset(back), collected, changer, |back|).DoubleFault?
    ensures j < i < |collected| && Enforced(columns, hasIndex, c) && collected[i][c] != Null
    ensures changer(collected[j])[c] == collected[i][c] != collected[j][c]
    decreases |collected| - |back|
  {
    i := |back|;
    var now := Comeback(columns, hasIndex, items + multiset(back), collected[i], changer(collected[i]));
    if now.None? {
      j, c := RejectedIsRobbed(columns, hasIndex, items, collected, changer, back);
    } else {
      assert items + multiset(back) + multiset{now.value} == items + multiset(back + [now.value]);
      i, j, c := TheftFrom(columns, hasIndex, items, collected, changer, back + [now.value]);
    }
  }

  /**
   A double fault is a theft: a row can be lost only if an earlier row of the same statement was changed to the value
   that the lost row has in an enforced column.
   */
  lemma FaultIsTheft(columns: seq<Column>, hasIndex: seq<bool>, items: multiset<Item>, collected: seq<Item>,
                     changer: Item -> Item)
    requires |hasIndex| == |columns| && Typed(columns, collected, changer)
    requires Apart(columns, hasIndex, items, collected)
    requires forall k :: 0 <= k < |collected| ==> Admissible(columns, collected[k])
    requires AfterUpdate(columns, hasIndex, items, collected, changer).DoubleFault?
    ensures exists i, j, c ::
              && 0 <= j < i < |collected| && 0 <= c && Enforced(columns, hasIndex, c)
              && collected[i][c] != Null && changer(collected[j])[c] == collected[i][c] != collected[j][c]
  {
    assert items + multiset([]) == items;
    var i, j, c := TheftFrom(columns, hasIndex, items, collected, changer, []);
  }

  // ---------- what an UPDATE statement sets ----------

  /** One assignment of the SET clause: the offset of the column, and the value that all rows get there. */
  datatype Setting = Setting(offset: nat, value: Cell)

  /** The clause names columns that exist, with values of their types. */
  predicate SettingsOk(columns: seq<Column>, sets: seq<Setting>) {
    forall i :: 0 <= i < |sets| ==> sets[i].offset < |columns| && CellFits(columns[sets[i].offset].kind, sets[i].value)
  }

  /** An item after the first `n` assignments. */
  function ChangedUpTo(sets: seq<Setting>, item: Item, n: nat): (r: Item)
    requires n <= |sets|
    ensures |r| == |item|
  {
    if n == 0 then item
    else
      var s, before := sets[n - 1], ChangedUpTo(sets, item, n - 1);
      if s.offset < |item| then before[s.offset := s.value] else before
  }

  /** getChanger. */
  function Changer(sets: seq<Setting>): Item -> Item {
    item => ChangedUpTo(sets, item, |sets|)
  }

  /** The loop of the changer. */
  method Change(sets: seq<Setting>, item: Item) returns (r: Item)
    requires forall i :: 0 <= i < |sets| ==> sets[i].offset < |item|
    ensures r == Changer(sets)(item)
  {
    r := item;
    for i := 0 to |sets|
      invariant r == ChangedUpTo(sets, item, i)
    {
      r := r[sets[i].offset := sets[i].value];
    }
  }

  /** What the first `n` assignments leave in each column: the last value that was set. */
  function ValuesUpTo(sets: seq<Setting>, n: nat): map<nat, Cell>
    requires n <= |sets|
  {
    if n == 0 then map[] else ValuesUpTo(sets, n - 1)[sets[n - 1].offset := sets[n - 1].value]
  }

  function Values(sets: seq<Setting>): map<nat, Cell> {
    ValuesUpTo(sets, |sets|)
  }

  /** The last value that is given for a column counts. */
  lemma {:induction false} LastValueCounts(sets: seq<Setting>, k: nat, n: nat)
    requires k < n <= |sets| && forall j :: k < j < n ==> sets[j].offset != sets[k].offset
    ensures sets[k].offset in ValuesUpTo(sets, n) && ValuesUpTo(sets, n)[sets[k].offset] == sets[k].value
    decreases n
  {
    if n == k + 1 {
    } else {
      LastValueCounts(sets, k, n - 1);
    }
  }

  lemma {:induction false} OnlyGivenValues(sets: seq<Setting>, c: nat, n: nat)
    requires n <= |sets| && forall j :: 0 <= j < n ==> sets[j].offset != c
    ensures c !in ValuesUpTo(sets, n)
    decreases n
  {
    if n == 0 {
    } else {
      OnlyGivenValues(sets, c, n - 1);
    }
  }

  /** A changer that puts fixed values into some columns and leaves the others alone. */
  ghost predicate Sets(changer: Item -> Item, vals: map<nat, Cell>) {
    forall item {:trigger changer(item)} ::
      && |changer(item)| == |item|
      && forall c :: 0 <= c < |item| ==> changer(item)[c] == if c in vals then vals[c] else item[c]
  }

  lemma {:induction false} ChangedUpToSets(sets: seq<Setting>, item: Item, n: nat, c: nat)
    requires n <= |sets| && c < |item|
    ensures var vals := ValuesUpTo(sets, n);
      ChangedUpTo(sets, item, n)[c] == if c in vals then vals[c] else item[c]
  {
    if n == 0 {
    } else {
      ChangedUpToSets(sets, item, n - 1, c);
    }
  }

  /** The changer of a SET clause sets every named column to the last value that the clause gives it. */
  lemma ChangerSets(sets: seq<Setting>)
    ensures Sets(Changer(sets), Values(sets))
  {
    var changer, vals := Changer(sets), Values(sets);
    forall item ensures |changer(item)| == |item|
      ensures forall c :: 0 <= c < |item| ==> changer(item)[c] == if c in vals then vals[c] else item[c]
    {
      forall c | 0 <= c < |item| ensures changer(item)[c] == if c in vals then vals[c] else item[c] {
        ChangedUpToSets(sets, item, |sets|, c);
      }
    }
  }

  lemma {:induction false} ChangedUpToFits(columns: seq<Column>, sets: seq<Setting>, item: Item, n: nat)
    requires SettingsOk(columns, sets) && ItemFits(columns, item) && n <= |sets|
    ensures ItemFits(columns, ChangedUpTo(sets, item, n))
  {
    if n == 0 {
    } else {
      ChangedUpToFits(columns, sets, item, n - 1);
    }
  }

  lemma ChangerTyped(columns: seq<Column>, sets: seq<Setting>, items: seq<Item>)
    requires SettingsOk(columns, sets) && forall i :: 0 <= i < |items| ==> ItemFits(columns, items[i])
    ensures Typed(columns, items, Changer(sets))
  {
    forall i | 0 <= i < |items| ensures ItemFits(columns, Changer(sets)(items[i])) {
      ChangedUpToFits(columns, sets, items[i], |sets|);
    }
  }

  // ---------- when a row is lost ----------

  /** What an update starts from: rows that were collected from a table without twins. */
  ghost predicate Collected(columns: seq<Column>, hasIndex: seq<bool>, items: multiset<Item>, collected: seq<Item>,
                            changer: Item -> Item, vals: map<nat, Cell>)
    requires |hasIndex| == |columns|
  {
    && Typed(columns, collected, changer) && Apart(columns, hasIndex, items, collected) && Sets(changer, vals)
    && forall k :: 0 <= k < |collected| ==> Admissible(columns, collected[k])
  }

  /** If the first change is rejected, then because of a value that all rows would get. */
  lemma RejectedForAll(columns: seq<Column>, hasIndex: seq<bool>, items: multiset<Item>, collected: seq<Item>,
                       changer: Item -> Item, vals: map<nat, Cell>, n: nat)
    requires |hasIndex| == |columns| && Collected(columns, hasIndex, items, collected, changer, vals) && n < |collected|
    requires !Accepts(columns, hasIndex, items, changer(collected[0]))
    ensures !Accepts(columns, hasIndex, items + multiset(collected[..n]), changer(collected[n]))
  {
    var first, next, all := changer(collected[0]), changer(collected[n]), items + multiset(collected[..n]);
    var c :| 0 <= c < |columns| && !ColumnAccepts(columns, hasIndex, items, first, c);
    assert Admissible(columns, collected[0]) && ApartAt(columns, hasIndex, items, collected, c, 0);
    assert c in vals && first[c] == next[c] == vals[c];
    if Taken(items, c, first[c]) {
      var x :| x in items && c < |x| && x[c] == first[c];
      assert x in all;
    }
    assert !ColumnAccepts(columns, hasIndex, all, next, c);
  }

  /** A collected row fits in again, where it was, if the rows before it came back as they were. */
  lemma FitsAgain(columns: seq<Column>, hasIndex: seq<bool>, items: multiset<Item>, collected: seq<Item>, n: nat)
    requires |hasIndex| == |columns| && n < |collected| && Admissible(columns, collected[n])
    requires Apart(columns, hasIndex, items, collected)
    ensures Accepts(columns, hasIndex, items + multiset(collected[..n]), collected[n])
  {
    var all := items + multiset(collected[..n]);
    forall c | 0 <= c < |columns| ensures ColumnAccepts(columns, hasIndex, all, collected[n], c) {
      assert ApartAt(columns, hasIndex, items, collected, c, n);
      forall x | x in all && c < |x| && Enforced(columns, hasIndex, c) && collected[n][c] != Null
        ensures x[c] != collected[n][c]
      {
        if x !in items {
          assert x in collected[..n];
          var j :| 0 <= j < n && collected[j] == x;
        }
      }
    }
  }

  lemma OneMore(items: multiset<Item>, collected: seq<Item>, n: nat)
    requires n < |collected|
    ensures items + multiset(collected[..n]) + multiset{collected[n]} == items + multiset(collected[..n + 1])
  {
    assert collected[..n + 1] == collected[..n] + [collected[n]];
  }

  /** A row whose change is rejected comes back as it was. */
  lemma OneComesBack(columns: seq<Column>, hasIndex: seq<bool>, items: multiset<Item>, collected: seq<Item>,
                     changer: Item -> Item, vals: map<nat, Cell>, n: nat)
    requires |hasIndex| == |columns| && Collected(columns, hasIndex, items, collected, changer, vals) && n < |collected|
    requires !Accepts(columns, hasIndex, items, changer(collected[0]))
    ensures UpdateFrom(columns, hasIndex, items + multiset(collected[..n]), collected, changer, n)
         == UpdateFrom(columns, hasIndex, items + multiset(collected[..n + 1]), collected, changer, n + 1)
  {
    RejectedForAll(columns, hasIndex, items, collected, changer, vals, n);
    FitsAgain(columns, hasIndex, items, collected, n);
    OneMore(items, collected, n);
    var all := items + multiset(collected[..n]);
    assert Comeback(columns, hasIndex, all, collected[n], changer(collected[n])) == Some(collected[n]);
  }

  lemma {:induction false} AllComeBack(columns: seq<Column>, hasIndex: seq<bool>, items: multiset<Item>,
                                       collected: seq<Item>, changer: Item -> Item, vals: map<nat, Cell>, n: nat)
    requires |hasIndex| == |columns| && Collected(columns, hasIndex, items, collected, changer, vals)
        && n <= |collected|
    requires |collected| > 0 && !Accepts(columns, hasIndex, items, changer(collected[0]))
    ensures UpdateFrom(columns, hasIndex, items + multiset(collected[..n]), collected, changer, n)
         == Updated(items + multiset(collected))
    decreases |collected| - n
  {
    if n == |collected| {
      assert collected[..n] == collected;
    } else {
      OneComesBack(columns, hasIndex, items, collected, changer, vals, n);
      AllComeBack(columns, hasIndex, items, collected, changer, vals, n + 1);
    }
  }

  /** Once a row has the value that is set, a row that had it before cannot come back. */
  lemma {:induction false} HitFaults(columns: seq<Column>, hasIndex: seq<bool>, items: multiset<Item>,
                                     collected: seq<Item>, changer: Item -> Item, vals: map<nat, Cell>, n: nat,
                                     i: nat, c: nat)
    requires |hasIndex| == |columns| && Typed(columns, collected, changer) && Sets(changer, vals)
    requires n <= i < |collected| && Enforced(columns, hasIndex, c) && c in vals && vals[c] != Null
    requires collected[i][c] == vals[c] && Taken(items, c, vals[c])
    ensures UpdateFrom(columns, hasIndex, items, collected, changer, n).DoubleFault?
    decreases i - n
  {
    var item, changed := collected[n], changer(collected[n]);
    assert changed[c] == vals[c];
    var back := Comeback(columns, hasIndex, items, item, changed);
    assert !ColumnAccepts(columns, hasIndex, items, changed, c);
    if n == i {
      assert !ColumnAccepts(columns, hasIndex, items, item, c);
    } else if back.Some? {
      var x :| x in items && c < |x| && x[c] == vals[c];
      assert x in items + multiset{back.value};
      HitFaults(columns, hasIndex, items + multiset{back.value}, collected, changer, vals, n + 1, i, c);
    }
  }

  /** Row `i` has a unique value that the statement gives to every row. */
  predicate Hit(columns: seq<Column>, hasIndex: seq<bool>, collected: seq<Item>, vals: map<nat, Cell>, i: nat, c: nat)
    requires |hasIndex| == |columns|
  {
    && i < |collected| && Enforced(columns, hasIndex, c) && c in vals && vals[c] != Null
    && c < |collected[i]| && collected[i][c] == vals[c]
  }

  /** The first row can be changed, and a later one has a unique value that the first is changed to. */
  ghost predicate WillFault(columns: seq<Column>, hasIndex: seq<bool>, items: multiset<Item>, collected: seq<Item>,
                            changer: Item -> Item, vals: map<nat, Cell>)
    requires |hasIndex| == |columns| && Typed(columns, collected, changer)
  {
    && 0 < |collected| && Accepts(columns, hasIndex, items, changer(collected[0]))
    && exists i: nat, c: nat :: 0 < i && Hit(columns, hasIndex, collected, vals, i, c)
  }

  lemma FirstChanged(columns: seq<Column>, hasIndex: seq<bool>, items: multiset<Item>, collected: seq<Item>,
                     changer: Item -> Item, vals: map<nat, Cell>, i: nat, c: nat)
    requires |hasIndex| == |columns| && Collected(columns, hasIndex, items, collected, changer, vals)
    requires 0 < i && Hit(columns, hasIndex, collected, vals, i, c)
    requires Accepts(columns, hasIndex, items, changer(collected[0]))
    ensures AfterUpdate(columns, hasIndex, items, collected, changer).DoubleFault?
  {
    var first := changer(collected[0]);
    assert first in items + multiset{first} && first[c] == vals[c];
    HitFaults(columns, hasIndex, items + multiset{first}, collected, changer, vals, 1, i, c);
  }

  /**
   An update loses a row exactly if the first collected row can be changed, and a later one has, in an enforced
   column, the value that the statement sets there. The state before the update decides it.
   */
  lemma FaultExactly(columns: seq<Column>, hasIndex: seq<bool>, items: multiset<Item>, collected: seq<Item>,
                     changer: Item -> Item, vals: map<nat, Cell>)
    requires |hasIndex| == |columns| && Collected(columns, hasIndex, items, collected, changer, vals)
    ensures AfterUpdate(columns, hasIndex, items, collected, changer).DoubleFault?
       <==> WillFault(columns, hasIndex, items, collected, changer, vals)
  {
    if AfterUpdate(columns, hasIndex, items, collected, changer).DoubleFault? {
      FaultIsTheft(columns, hasIndex, items, collected, changer);
      var i, j, c :| 0 <= j < i < |collected| && 0 <= c && Enforced(columns, hasIndex, c)
        && collected[i][c] != Null && changer(collected[j])[c] == collected[i][c] != collected[j][c];
      assert Hit(columns, hasIndex, collected, vals, i, c);
      if !Accepts(columns, hasIndex, items, changer(collected[0])) {
        assert items + multiset(collected[..0]) == items;
        AllComeBack(columns, hasIndex, items, collected, changer, vals, 0);
      }
    }
    if WillFault(columns, hasIndex, items, collected, changer, vals) {
      var i: nat, c: nat :| 0 < i && Hit(columns, hasIndex, collected, vals, i, c);
      FirstChanged(columns, hasIndex, items, collected, changer, vals, i, c);
    }
  }

  /** A change that leaves the enforced columns alone and puts no null where none is allowed. */
  ghost predicate Harmless(columns: seq<Column>, hasIndex: seq<bool>, item: Item, changed: Item)
    requires |hasIndex| == |columns|
  {
    && Admissible(columns, changed) && |item| == |columns|
    && forall c :: 0 <= c < |columns| && Enforced(columns, hasIndex, c) ==> changed[c] == item[c]
  }

  /** The changed rows. */
  function Mapped(collected: seq<Item>, changer: Item -> Item): seq<Item> {
    seq(|collected|, i requires 0 <= i < |collected| => changer(collected[i]))
  }

  ghost predicate AllHarmless(columns: seq<Column>, hasIndex: seq<bool>, collected: seq<Item>, changer: Item -> Item)
    requires |hasIndex| == |columns|
  {
    forall k :: 0 <= k < |collected| ==> Harmless(columns, hasIndex, collected[k], changer(collected[k]))
  }

  lemma HarmlessAccepted(columns: seq<Column>, hasIndex: seq<bool>, items: multiset<Item>, collected: seq<Item>,
                         changer: Item -> Item, n: nat)
    requires |hasIndex| == |columns| && n < |collected| && Apart(columns, hasIndex, items, collected)
    requires AllHarmless(columns, hasIndex, collected, changer)
    ensures |changer(collected[n])| == |columns|
    ensures Accepts(columns, hasIndex, items + multiset(Mapped(collected[..n], changer)), changer(collected[n]))
  {
    var done, next := Mapped(collected[..n], changer), changer(collected[n]);
    assert Harmless(columns, hasIndex, collected[n], next);
    forall c | 0 <= c < |columns| ensures ColumnAccepts(columns, hasIndex, items + multiset(done), next, c) {
      assert ApartAt(columns, hasIndex, items, collected, c, n);
      forall x | Enforced(columns, hasIndex, c) && x in items + multiset(done) && c < |x| && next[c] != Null
        ensures x[c] != next[c]
      {
        if x in multiset(done) {
          var j :| 0 <= j < |done| && done[j] == x;
          assert Harmless(columns, hasIndex, collected[j], x);
        }
      }
    }
  }

  lemma {:induction false} HarmlessFrom(columns: seq<Column>, hasIndex: seq<bool>, items: multiset<Item>,
                                        collected: seq<Item>, changer: Item -> Item, n: nat)
    requires |hasIndex| == |columns| && n <= |collected| && Typed(columns, collected, changer)
    requires Apart(columns, hasIndex, items, collected) && AllHarmless(columns, hasIndex, collected, changer)
    ensures UpdateFrom(columns, hasIndex, items + multiset(Mapped(collected[..n], changer)), collected, changer, n)
         == Updated(items + multiset(Mapped(collected, changer)))
    decreases |collected| - n
  {
    if n == |collected| {
      assert collected[..n] == collected;
    } else {
      HarmlessAccepted(columns, hasIndex, items, collected, changer, n);
      HarmlessFrom(columns, hasIndex, items, collected, changer, n + 1);
      var done := Mapped(collected[..n], changer);
      assert Mapped(collected[..n + 1], changer) == done + [changer(collected[n])];
      assert items + multiset(done) + multiset{changer(collected[n])}
          == items + multiset(done + [changer(collected[n])]);
    }
  }

  /** Updates that leave the enforced columns alone never fault: every collected row comes back changed. */
  lemma HarmlessUpdate(columns: seq<Column>, hasIndex: seq<bool>, items: multiset<Item>, collected: seq<Item>,
                       changer: Item -> Item)
    requires |hasIndex| == |columns| && Typed(columns, collected, changer)
    requires Apart(columns, hasIndex, items, collected) && AllHarmless(columns, hasIndex, collected, changer)
    ensures AfterUpdate(columns, hasIndex, items, collected, changer) ==
        Updated(items + multiset(Mapped(collected, changer)))
  {
    assert items + multiset(Mapped(collected[..0], changer)) == items;
    HarmlessFrom(columns, hasIndex, items, collected, changer, 0);
  }

  // ---------- which rows come back changed ----------

  /** The statement sets an enforced column to a value. */
  ghost predicate SetsKey(columns: seq<Column>, hasIndex: seq<bool>, vals: map<nat, Cell>)
    requires |hasIndex| == |columns|
  {
    exists c: nat :: Enforced(columns, hasIndex, c) && c in vals && vals[c] != Null
  }

  /** The rows that come back if the first is changed, and if `all` is set every other one. */
  function Returned(collected: seq<Item>, changer: Item -> Item, all: bool): (back: seq<Item>)
    ensures |back| == |collected|
  {
    seq(|collected|, k requires 0 <= k < |collected| => if all || k == 0 then changer(collected[k]) else collected[k])
  }

  /** A value that is set everywhere is taken by the first row. */
  lemma KeyIsTaken(columns: seq<Column>, hasIndex: seq<bool>, items: multiset<Item>, collected: seq<Item>,
                   changer: Item -> Item, vals: map<nat, Cell>, n: nat)
    requires |hasIndex| == |columns| && Collected(columns, hasIndex, items, collected, changer, vals)
    requires 0 < n < |collected| && SetsKey(columns, hasIndex, vals)
    ensures var bag := items + multiset(Returned(collected, changer, false)[..n]);
      !Accepts(columns, hasIndex, bag, changer(collected[n]))
  {
    var back := Returned(collected, changer, false)[..n];
    var bag, next := items + multiset(back), changer(collected[n]);
    var c: nat :| Enforced(columns, hasIndex, c) && c in vals && vals[c] != Null;
    assert back[0] in back && back[0][c] == vals[c] == next[c];
    assert Taken(bag, c, next[c]) && !ColumnAccepts(columns, hasIndex, bag, next, c);
  }

  /** A row that nobody has robbed of its value fits in again behind the changed first row. */
  lemma FitsBehind(columns: seq<Column>, hasIndex: seq<bool>, items: multiset<Item>, collected: seq<Item>,
                   changer: Item -> Item, vals: map<nat, Cell>, n: nat)
    requires |hasIndex| == |columns| && Collected(columns, hasIndex, items, collected, changer, vals)
    requires 0 < n < |collected| && forall c: nat :: !Hit(columns, hasIndex, collected, vals, n, c)
    ensures var bag := items + multiset(Returned(collected, changer, false)[..n]);
      Accepts(columns, hasIndex, bag, collected[n])
  {
    var back := Returned(collected, changer, false)[..n];
    var bag, item := items + multiset(back), collected[n];
    assert Admissible(columns, item);
    forall c | 0 <= c < |columns| ensures ColumnAccepts(columns, hasIndex, bag, item, c) {
      assert ApartAt(columns, hasIndex, items, collected, c, n) && !Hit(columns, hasIndex, collected, vals, n, c);
      forall x | x in bag && c < |x| && Enforced(columns, hasIndex, c) && item[c] != Null ensures x[c] != item[c] {
        if x !in items {
          assert x in back;
          var j :| 0 <= j < n && back[j] == x;
        }
      }
    }
  }

  /** Without a value for an enforced column a change is accepted as the first one was. */
  lemma ChangeFits(columns: seq<Column>, hasIndex: seq<bool>, items: multiset<Item>, collected: seq<Item>,
                   changer: Item -> Item, vals: map<nat, Cell>, n: nat)
    requires |hasIndex| == |columns| && Collected(columns, hasIndex, items, collected, changer, vals)
    requires n < |collected| && !SetsKey(columns, hasIndex, vals)
    requires Accepts(columns, hasIndex, items, changer(collected[0]))
    ensures var bag := items + multiset(Returned(collected, changer, true)[..n]);
      Accepts(columns, hasIndex, bag, changer(collected[n]))
  {
    var back := Returned(collected, changer, true)[..n];
    var bag, next := items + multiset(back), changer(collected[n]);
    forall c | 0 <= c < |columns| ensures ColumnAccepts(columns, hasIndex, bag, next, c) {
      assert ApartAt(columns, hasIndex, items, collected, c, n) && Admissible(columns, collected[n]);
      assert ColumnAccepts(columns, hasIndex, items, changer(collected[0]), c);
      assert Enforced(columns, hasIndex, c) && c in vals ==> vals[c] == Null;
      forall x | x in bag && c < |x| && Enforced(columns, hasIndex, c) && next[c] != Null ensures x[c] != next[c] {
        if x !in items {
          assert x in back;
          var j :| 0 <= j < n && back[j] == x;
        }
      }
    }
  }

  /** What row `n` comes back as, unless it is hit. */
  lemma ReturnsNext(columns: seq<Column>, hasIndex: seq<bool>, items: multiset<Item>, collected: seq<Item>,
                    changer: Item -> Item, vals: map<nat, Cell>, all: bool, n: nat)
    requires |hasIndex| == |columns| && Collected(columns, hasIndex, items, collected, changer, vals)
    requires n < |collected| && Accepts(columns, hasIndex, items, changer(collected[0]))
    requires all <==> !SetsKey(columns, hasIndex, vals)
    requires !all && n > 0 ==> forall c: nat :: !Hit(columns, hasIndex, collected, vals, n, c)
    ensures var back := Returned(collected, changer, all);
      Comeback(columns, hasIndex, items + multiset(back[..n]), collected[n], changer(collected[n])) == Some(back[n])
  {
    if n == 0 {
      assert items + multiset(Returned(collected, changer, all)[..0]) == items;
    } else if all {
      ChangeFits(columns, hasIndex, items, collected, changer, vals, n);
    } else {
      KeyIsTaken(columns, hasIndex, items, collected, changer, vals, n);
      FitsBehind(columns, hasIndex, items, collected, changer, vals, n);
    }
  }

  lemma {:induction false} ReturnedFrom(columns: seq<Column>, hasIndex: seq<bool>, items: multiset<Item>,
                                        collected: seq<Item>, changer: Item -> Item, vals: map<nat, Cell>, n: nat)
    requires |hasIndex| == |columns| && Collected(columns, hasIndex, items, collected, changer, vals)
    requires 0 < |collected| && n <= |collected| && Accepts(columns, hasIndex, items, changer(collected[0]))
    requires !WillFault(columns, hasIndex, items, collected, changer, vals)
    ensures var back := Returned(collected, changer, !SetsKey(columns, hasIndex, vals));
      UpdateFrom(columns, hasIndex, items + multiset(back[..n]), collected, changer, n)
      == Updated(items + multiset(back))
    decreases |collected| - n
  {
    var all := !SetsKey(columns, hasIndex, vals);
    var back := Returned(collected, changer, all);
    if n == |collected| {
      assert back[..n] == back;
    } else {
      ReturnsNext(columns, hasIndex, items, collected, changer, vals, all, n);
      OneMore(items, back, n);
      ReturnedFrom(columns, hasIndex, items, collected, changer, vals, n + 1);
    }
  }

  /**
   What an update without a fault comes to: no row is changed if the first one cannot be; else the first is, and the
   others exactly if the statement sets no enforced column to a value.
   */
  lemma UpdatedExactly(columns: seq<Column>, hasIndex: seq<bool>, items: multiset<Item>, collected: seq<Item>,
                       changer: Item -> Item, vals: map<nat, Cell>)
    requires |hasIndex| == |columns| && Collected(columns, hasIndex, items, collected, changer, vals)
    requires !WillFault(columns, hasIndex, items, collected, changer, vals)
    ensures AfterUpdate(columns, hasIndex, items, collected, changer) ==
              if 0 < |collected| && Accepts(columns, hasIndex, items, changer(collected[0])) then
                Updated(items + multiset(Returned(collected, changer, !SetsKey(columns, hasIndex, vals))))
              else Updated(items + multiset(collected))
  {
    if 0 < |collected| {
      if Accepts(columns, hasIndex, items, changer(collected[0])) {
        var back := Returned(collected, changer, !SetsKey(columns, hasIndex, vals));
        assert items + multiset(back[..0]) == items;
        ReturnedFrom(columns, hasIndex, items, collected, changer, vals, 0);
      } else {
        assert items + multiset(collected[..0]) == items;
        AllComeBack(columns, hasIndex, items, collected, changer, vals, 0);
      }
    }
  }

  /** Row `i` is the first after row 0 that has a unique value which the statement sets. */
  ghost predicate FirstHit(columns: seq<Column>, hasIndex: seq<bool>, collected: seq<Item>, vals: map<nat, Cell>,
                           i: nat)
    requires |hasIndex| == |columns|
  {
    && 0 < i < |collected| && (exists c: nat :: Hit(columns, hasIndex, collected, vals, i, c))
    && forall j: nat, c: nat :: 0 < j < i ==> !Hit(columns, hasIndex, collected, vals, j, c)
  }

  lemma HitCannotFit(columns: seq<Column>, hasIndex: seq<bool>, items: multiset<Item>, collected: seq<Item>,
                     changer: Item -> Item, vals: map<nat, Cell>, i: nat)
    requires |hasIndex| == |columns| && Collected(columns, hasIndex, items, collected, changer, vals)
    requires FirstHit(columns, hasIndex, collected, vals, i)
    ensures SetsKey(columns, hasIndex, vals)
    ensures !Accepts(columns, hasIndex, items + multiset(Returned(collected, changer, false)[..i]), collected[i])
  {
    var back := Returned(collected, changer, false)[..i];
    var bag := items + multiset(back);
    var c: nat :| Hit(columns, hasIndex, collected, vals, i, c);
    assert back[0] in back && back[0][c] == vals[c] == collected[i][c];
    assert Taken(bag, c, collected[i][c]) && !ColumnAccepts(columns, hasIndex, bag, collected[i], c);
  }

  lemma {:induction false} FaultedFrom(columns: seq<Column>, hasIndex: seq<bool>, items: multiset<Item>,
                                       collected: seq<Item>, changer: Item -> Item, vals: map<nat, Cell>, n: nat,
                                       i: nat)
    requires |hasIndex| == |columns| && Collected(columns, hasIndex, items, collected, changer, vals)
    requires FirstHit(columns, hasIndex, collected, vals, i) && n <= i
    requires Accepts(columns, hasIndex, items, changer(collected[0]))
    ensures var back := Returned(collected, changer, false);
      UpdateFrom(columns, hasIndex, items + multiset(back[..n]), collected, changer, n)
      == DoubleFault(items + multiset(back[..i]))
    decreases i - n
  {
    HitCannotFit(columns, hasIndex, items, collected, changer, vals, i);
    if n == i {
      KeyIsTaken(columns, hasIndex, items, collected, changer, vals, n);
    } else {
      ReturnsNext(columns, hasIndex, items, collected, changer, vals, false, n);
      OneMore(items, Returned(collected, changer, false), n);
      FaultedFrom(columns, hasIndex, items, collected, changer, vals, n + 1, i);
    }
  }

  /** What a fault leaves: the first row changed, the rows before the one that is lost as they were, and no other. */
  lemma FaultedExactly(columns: seq<Column>, hasIndex: seq<bool>, items: multiset<Item>, collected: seq<Item>,
                       changer: Item -> Item, vals: map<nat, Cell>, i: nat)
    requires |hasIndex| == |columns| && Collected(columns, hasIndex, items, collected, changer, vals)
    requires FirstHit(columns, hasIndex, collected, vals, i)
    requires Accepts(columns, hasIndex, items, changer(collected[0]))
    ensures AfterUpdate(columns, hasIndex, items, collected, changer) ==
              DoubleFault(items + multiset(Returned(collected, changer, false)[..i]))
  {
    assert items + multiset(Returned(collected, changer, false)[..0]) == items;
    FaultedFrom(columns, hasIndex, items, collected, changer, vals, 0, i);
  }

  /** Setting a key column of two rows to the key of the second loses the second. */
  lemma DoubleFaultHappens()
    ensures var key, rows := [Column("k", IntKind, true, true)], [[Int(1)], [Int(2)]];
      && Apart(key, [true], multiset{}, rows)
      && AfterUpdate(key, [true], multiset{}, rows, (x: Item) => [Int(2)]) == DoubleFault(multiset{[Int(2)]})
  {
    var key: seq<Column> := [Column("k", IntKind, true, true)];
    var rows: seq<Item>, set2 := [[Int(1)], [Int(2)]], (x: Item) => [Int(2)];
    var none: multiset<Item>, one: multiset<Item> := multiset{}, multiset{[Int(2)]};
    assert ColumnAccepts(key, [true], none, [Int(2)], 0);
    assert Accepts(key, [true], none, [Int(2)]);
    assert [Int(2)] in one && Taken(one, 0, Int(2));
    assert !ColumnAccepts(key, [true], one, [Int(2)], 0);
    assert none + one == one;
    assert UpdateFrom(key, [true], one, rows, set2, 1) == DoubleFault(one);
  }

  // ---------- uniqueness ----------

  /** No two rows share a value other than null in column `c`. */
  ghost predicate NoTwins(rows: map<Location, Item>, c: nat) {
    forall a, b :: a in rows && b in rows && a != b && c < |rows[a]| && c < |rows[b]| && rows[a][c] != Null ==>
                     rows[a][c] != rows[b][c]
  }

  /** The items of a table, however often each occurs. */
  ghost function Bag(rows: map<Location, Item>, order: seq<Location>): multiset<Item>
    requires forall l :: l in order ==> l in rows
  {
    multiset(ItemsAt(rows, order))
  }

  lemma BagMember(rows: map<Location, Item>, order: seq<Location>, x: Item)
    requires forall l :: l in order <==> l in rows
    ensures x in Bag(rows, order) <==> exists l :: l in rows && rows[l] == x
  {
    var items := ItemsAt(rows, order);
    assert x in multiset(items) <==> x in items;
    if x in items {
      var i :| 0 <= i < |items| && items[i] == x;
      assert order[i] in rows && rows[order[i]] == x;
    }
    if l :| l in rows && rows[l] == x {
      var i :| 0 <= i < |order| && order[i] == l;
      assert items[i] == x;
    }
  }

  /** A column takes a new row without twins exactly if the value is not taken. */
  lemma NoTwinsInsert(rows: map<Location, Item>, order: seq<Location>, c: nat, l: Location, item: Item)
    requires (forall x :: x in order <==> x in rows) && l !in rows && c < |item|
    requires forall x :: x in rows ==> c < |rows[x]|
    ensures NoTwins(rows[l := item], c) <==> NoTwins(rows, c) && !Taken(Bag(rows, order), c, item[c])
  {
    var now := rows[l := item];
    if NoTwins(now, c) {
      forall a, b | a in rows && b in rows && a != b && rows[a][c] != Null ensures rows[a][c] != rows[b][c] {
        assert now[a] == rows[a] && now[b] == rows[b];
      }
      forall x | x in Bag(rows, order) && item[c] != Null ensures c >= |x| || x[c] != item[c] {
        BagMember(rows, order, x);
        var a :| a in rows && rows[a] == x;
        assert now[a] == x && now[l] == item;
      }
    }
    if NoTwins(rows, c) && !Taken(Bag(rows, order), c, item[c]) {
      forall a | a in rows && item[c] != Null ensures rows[a][c] != item[c] {
        BagMember(rows, order, rows[a]);
      }
    }
  }

  /** Where a scan in address order comes across a location. */
  function Rank(order: seq<Location>, l: Location): (r: nat)
    ensures r <= |order|
  {
    if order == [] then 0
    else
      var x := order[|order| - 1];
      if Before(x, l) then |order|
      else Rank(order[..|order| - 1], l)
  }

  function Placed(order: seq<Location>, l: Location): seq<Location> {
    var r := Rank(order, l);
    order[..r] + [l] + order[r..]
  }

  /** The locations on the two sides of the new one. */
  lemma {:induction false} RankOk(order: seq<Location>, l: Location)
    requires Ordered(order) && l !in order
    ensures forall x :: x in order[..Rank(order, l)] ==> Before(x, l)
    ensures forall x :: x in order[Rank(order, l)..] ==> Before(l, x)
  {
    if order == [] {
    } else {
      var n := |order| - 1;
      var front, last := order[..n], order[n];
      assert order == front + [last];
      LastIsHighest(order);
      if Before(last, l) {
        assert order[..|order|] == order && order[|order|..] == [];
      } else {
        OrderedPart(order, 0, n);
        RankOk(front, l);
        var r := Rank(front, l);
        assert order[..r] == front[..r] && order[r..] == front[r..] + [last];
      }
    }
  }

  /** A new location keeps the order. */
  lemma PlacedOrdered(order: seq<Location>, l: Location)
    requires Ordered(order) && l !in order
    ensures Ordered(Placed(order, l))
  {
    var r := Rank(order, l);
    var c, d := order[..r], order[r..];
    RankOk(order, l);
    OrderedPart(order, 0, r);
    OrderedPart(order, r, |order|);
    assert order[0..r] == c && order[r..|order|] == d;
    OrderedJoin(c, [l]);
    forall a, b | a in c + [l] && b in d ensures Before(a, b) {
    }
    OrderedJoin(c + [l], d);
  }

  /** What is left of an ordered list is ordered. */
  lemma {:induction false} OrderedFilter(s: seq<Location>, p: Location -> bool, n: nat)
    requires Ordered(s) && n <= |s|
    ensures Ordered(FilterUpTo(s, p, n)) && forall l :: l in FilterUpTo(s, p, n) ==> l in s[..n]
  {
    if n == 0 {
    } else {
      OrderedFilter(s, p, n - 1);
      var kept, x := FilterUpTo(s, p, n - 1), s[n - 1];
      assert s[..n] == s[..n - 1] + [x];
      forall l | l in kept ensures Before(l, x) {
        var i :| 0 <= i < n - 1 && s[..n - 1][i] == l;
        assert InTurn(s, i, n - 1);
      }
      OrderedJoin(kept, [x]);
    }
  }

  lemma OrderedErased(s: seq<Location>, at: nat)
    requires Ordered(s) && at < |s|
    ensures Ordered(s[..at] + s[at + 1..])
  {
    OrderedPart(s, 0, at);
    OrderedPart(s, at + 1, |s|);
    assert s[0..at] == s[..at] && s[at + 1..|s|] == s[at + 1..];
    forall a, b | a in s[..at] && b in s[at + 1..] ensures Before(a, b) {
      var i :| 0 <= i < at && s[i] == a;
      var j :| at + 1 <= j < |s| && s[j] == b;
      assert InTurn(s, i, j);
    }
    OrderedJoin(s[..at], s[at + 1..]);
  }

  /** The rows that a checker picks, in the order of their locations. */
  ghost predicate Scans(rows: map<Location, Item>, checker: Item -> bool, items: seq<Item>) {
    exists locs {:trigger Ordered(locs)} :: Ordered(locs) && (forall l :: l in locs <==> l in rows && checker(rows[l]))
      && items == ItemsAt(rows, locs)
  }

  /** There is one such list. */
  lemma ScansOnce(rows: map<Location, Item>, checker: Item -> bool, a: seq<Item>, b: seq<Item>)
    requires Scans(rows, checker, a) && Scans(rows, checker, b)
    ensures a == b
  {
    var s :| Ordered(s) && (forall l :: l in s <==> l in rows && checker(rows[l])) && a == ItemsAt(rows, s);
    var t :| Ordered(t) && (forall l :: l in t <==> l in rows && checker(rows[l])) && b == ItemsAt(rows, t);
    OrderedUnique(s, t);
  }

  lemma PlacedMembers(order: seq<Location>, l: Location)
    requires Distinct(order) && l !in order
    ensures Distinct(Placed(order, l)) && forall x :: x in Placed(order, l) <==> x in order || x == l
  {
    var r, now := Rank(order, l), Placed(order, l);
    assert order == order[..r] + order[r..];
    assert multiset(now) == multiset(order) + multiset{l} && l !in multiset(order);
    forall x ensures multiset(now)[x] <= 1 && (x in now <==> x in order || x == l) {
      assert multiset(order)[x] <= 1;
      assert (x in multiset(now) <==> x in now) && (x in multiset(order) <==> x in order);
    }
  }

  lemma PlacedOk(rows: map<Location, Item>, order: seq<Location>, l: Location, item: Item)
    requires Distinct(order) && (forall x :: x in order <==> x in rows) && l !in rows
    ensures Distinct(Placed(order, l)) && forall x :: x in Placed(order, l) <==> x in rows[l := item]
    ensures Bag(rows[l := item], Placed(order, l)) == Bag(rows, order) + multiset{item}
  {
    var r, now := Rank(order, l), rows[l := item];
    var c, d := order[..r], order[r..];
    PlacedMembers(order, l);
    assert order == c + d;
    ItemsAtParted(now, c, l, d);
    assert ItemsAt(now, order) == ItemsAt(rows, order);
  }

  /** An index that is not cleaned after rows left agrees only if none left. */
  lemma StaleIndex(rows: map<Location, Item>, ix: Index, hash: Cell -> Key, c: nat, gone: set<Location>)
    requires Agrees(rows, ix, hash, c) && gone <= rows.Keys && forall l :: l in rows ==> c < |rows[l]|
    ensures Agrees(rows - gone, ix, hash, c) <==> gone == {}
  {
    if gone == {} {
      assert rows - gone == rows;
    } else {
      var l :| l in gone;
      assert Entry(rows, ix, hash, c, hash(rows[l][c]), l);
      assert !Entry(rows - gone, ix, hash, c, hash(rows[l][c]), l);
    }
  }

  /** The items that an index lookup for `v` in column `c` returns. */
  function Matching(c: nat, v: Cell, checker: Item -> bool): Item -> bool {
    (item: Item) => c < |item| && item[c] == v && checker(item)
  }

  class Table {
    const columns: seq<Column>
    const hash: Cell -> Key

    var hasIndex: seq<bool>
    /** Whether there is an index file for the column; a dropped index leaves its file behind. */
    var hasFile: seq<bool>
    var rows: map<Location, Item>
    /** The order in which a scan of the record file meets the rows. */
    var order: seq<Location>
    var index: seq<Index>

    /** Everything but the agreement of the indexes with the rows. */
    ghost predicate Sound()
      reads this
    {
      && |hasIndex| == |hasFile| == |index| == |columns|
      && Distinct(order) && Ordered(order) && (forall l :: l in order <==> l in rows)
      && (forall l {:trigger Admissible(columns, rows[l])} | l in rows :: Admissible(columns, rows[l]))
    }

    ghost predicate IndexOk(c: nat)
      reads this
      requires |hasIndex| == |index| == |columns|
    {
      c < |columns| && hasIndex[c] ==> Agrees(rows, index[c], hash, c)
    }

    ghost predicate Valid()
      reads this
    {
      Sound() && forall c {:trigger IndexOk(c)} :: IndexOk(c)
    }

    /** The rows in scan order. */
    ghost function Items(): seq<Item>
      reads this
      requires Sound()
    {
      ItemsAt(rows, order)
    }

    ghost function Content(): multiset<Item>
      reads this
      requires Sound()
    {
      Bag(rows, order)
    }

    /** No two rows share a value in a column whose uniqueness is enforced. */
    ghost predicate Unique()
      reads this
      requires Sound()
    {
      forall c {:trigger NoTwins(rows, c)} | 0 <= c < |columns| && columns[c].unique && hasIndex[c] :: NoTwins(rows, c)
    }

    /** CREATE TABLE: no rows, and empty indexes over the key columns. */
    constructor (columns: seq<Column>, hash: Cell -> Key)
      ensures Valid() && Unique() && rows == map[] && this.columns == columns && this.hash == hash
      ensures forall c :: 0 <= c < |columns| ==> index[c] == map[]
      ensures forall c :: 0 <= c < |columns| ==> hasIndex[c] == hasFile[c] == columns[c].unique
    {
      this.columns, this.hash := columns, hash;
      hasIndex := seq(|columns|, c requires 0 <= c < |columns| => columns[c].unique);
      hasFile := seq(|columns|, c requires 0 <= c < |columns| => columns[c].unique);
      rows, order := map[], [];
      index := seq(|columns|, _ => map[]);
    }

    /** A table without rows has no items. */
    lemma NoContent()
      requires Sound()
      ensures rows == map[] ==> Content() == multiset{}
    {
      if order != [] {
        assert order[0] in order && order[0] in rows;
      }
    }

    /** A row is among the items, and bound in every index. */
    lemma RowIsListed(l: Location, c: nat)
      requires Valid() && l in rows && c < |columns| && hasIndex[c]
      ensures rows[l] in Items() && c < |rows[l]| && hash(rows[l][c]) in index[c]
      ensures l in Get(index[c], hash(rows[l][c]))
    {
      var i :| 0 <= i < |order| && order[i] == l;
      assert Items()[i] == rows[l] && Admissible(columns, rows[l]) && IndexOk(c);
      assert Entry(rows, index[c], hash, c, hash(rows[l][c]), l);
      LiveIsBound(rows, index[c], hash, c, l);
    }

    /** The locations whose rows a checker picks. */
    static ghost function Picks(was: map<Location, Item>, checker: Item -> bool): Location -> bool {
      l => l in was && checker(was[l])
    }

    /** What a lookup lists leads to the rows of a scan. */
    lemma ListedIsScanned(offset: nat, v: Cell, checker: Item -> bool)
      requires Valid() && offset < |columns| && hasIndex[offset]
      ensures var vec, p := Get(index[offset], hash(v)), Picks(rows, Matching(offset, v, checker));
        && (forall l :: l in vec ==> l in rows) && (forall l :: l in Filter(vec, p) ==> l in rows)
        && multiset(ItemsAt(rows, Filter(vec, p))) == multiset(Filter(Items(), Matching(offset, v, checker)))
    {
      assert IndexOk(offset);
      var vec, matches := Get(index[offset], hash(v)), Matching(offset, v, checker);
      var p := Picks(rows, matches);
      forall l | l in vec ensures l in rows {
        assert Entry(rows, index[offset], hash, offset, hash(v), l);
      }
      LookupIsScan(rows, index[offset], hash, offset, order, v, p);
      FilterItems(rows, order, p, matches, |order|);
    }

    /** One entry of the list more. */
    static lemma ItemsOneMore(rows: map<Location, Item>, vec: seq<Location>, p: Location -> bool, i: nat)
      requires i < |vec| && vec[i] in rows && forall l :: l in FilterUpTo(vec, p, i) ==> l in rows
      ensures forall l :: l in FilterUpTo(vec, p, i + 1) ==> l in rows
      ensures ItemsAt(rows, FilterUpTo(vec, p, i + 1))
           == if p(vec[i]) then ItemsAt(rows, FilterUpTo(vec, p, i)) + [rows[vec[i]]]
              else ItemsAt(rows, FilterUpTo(vec, p, i))
    {
      ItemsAtAppend(rows, FilterUpTo(vec, p, i), vec[i]);
    }

    /** selectUseIndex: the rows with value `v` in column `offset` that pass the checker, in index order. */
    method SelectUseIndex(offset: nat, v: Cell, checker: Item -> bool) returns (ret: seq<Item>)
      requires Valid() && offset < |columns| && hasIndex[offset]
      ensures multiset(ret) == multiset(Filter(Items(), Matching(offset, v, checker)))
    {
      var vec := Get(index[offset], hash(v));
      ret := [];
      ghost var p := Picks(rows, Matching(offset, v, checker));
      ListedIsScanned(offset, v, checker);
      for i := 0 to |vec|
        invariant (forall l :: l in FilterUpTo(vec, p, i) ==> l in rows) && ret == ItemsAt(rows, FilterUpTo(vec, p, i))
      {
        ItemsOneMore(rows, vec, p, i);
        assert Admissible(columns, rows[vec[i]]);
        var item := rows[vec[i]];
        if v == item[offset] && checker(item) {
          ret := ret + [item];
        }
      }
    }

    /** The items of a table are in the order of their locations, and so are those that a checker picks. */
    lemma ItemsScanned(checker: Item -> bool)
      requires Sound()
      ensures Scans(rows, checker, Filter(Items(), checker))
    {
      var p := Picks(rows, checker);
      OrderedFilter(order, p, |order|);
      FilterItems(rows, order, p, checker, |order|);
      forall l ensures l in Filter(order, p) <==> l in rows && checker(rows[l]) {
        FilterMember(order, p, l);
      }
      assert Items()[..|order|] == Items();
    }

    /** selectUseChecker: a full scan. */
    method SelectUseChecker(checker: Item -> bool) returns (ret: seq<Item>)
      requires Valid()
      ensures ret == Filter(Items(), checker) && Scans(rows, checker, ret)
    {
      ret := [];
      for i := 0 to |order|
        invariant ret == FilterUpTo(Items(), checker, i)
      {
        if checker(rows[order[i]]) {
          ret := ret + [rows[order[i]]];
        }
      }
      assert Items()[..|order|] == Items();
      ItemsScanned(checker);
    }

    static lemma FoundIsTaken(items: seq<Item>, c: nat, v: Cell, res: seq<Item>)
      requires multiset(res) == multiset(Filter(items, Matching(c, v, _ => true))) && v != Null
      ensures |res| > 0 <==> Taken(multiset(items), c, v)
    {
      var p := Matching(c, v, _ => true);
      if |res| > 0 {
        assert res[0] in multiset(res) && res[0] in Filter(items, p);
        FilterMember(items, p, res[0]);
        assert res[0] in multiset(items);
      }
      if x :| x in multiset(items) && c < |x| && x[c] == v {
        assert x in items;
        FilterMember(items, p, x);
        assert x in multiset(Filter(items, p)) && x in multiset(res);
      }
    }

    /** The checks of one column of an item that is to be inserted. */
    method CheckColumn(i: nat, item: Item) returns (ok: bool)
      requires Valid() && i < |columns| == |item|
      ensures ok == ColumnAccepts(columns, hasIndex, Content(), item, i)
    {
      if columns[i].notNull && item[i] == Null {
        return false;
      }
      if columns[i].unique && item[i] != Null && hasIndex[i] {
        var res := SelectUseIndex(i, item[i], _ => true);
        FoundIsTaken(Items(), i, item[i], res);
        return |res| == 0;
      }
      return true;
    }

    /** The checks of an item that is to be inserted, up to the first that fails. */
    method CheckColumns(item: Item) returns (ok: bool)
      requires Valid() && |item| == |columns|
      ensures ok == Accepts(columns, hasIndex, Content(), item)
    {
      for i := 0 to |columns|
        invariant forall c {:trigger ColumnAccepts(columns, hasIndex, Content(), item, c)} | 0 <= c < i ::
          ColumnAccepts(columns, hasIndex, Content(), item, c)
      {
        ok := CheckColumn(i, item);
        if !ok {
          return;
        }
      }
      ok := true;
    }

    /** The indexed cells of a new row go to their indexes. */
    method InsertInIndexes(item: Item, loc: Location, ghost was: map<Location, Item>)
      requires Sound() && loc !in was && rows == was[loc := item] && |item| == |columns|
      requires forall c {:trigger Agrees(was, index[c], hash, c)} | 0 <= c < |columns| && hasIndex[c] ::
        Agrees(was, index[c], hash, c)
      modifies this`index
      ensures Valid()
    {
      ghost var ix := index;
      for i := 0 to |columns|
        invariant |index| == |ix| && forall c :: i <= c < |ix| ==> index[c] == ix[c]
        invariant forall c {:trigger IndexOk(c)} | 0 <= c < i :: IndexOk(c)
      {
        label L:
        if hasIndex[i] {
          assert index[i] == ix[i] && Agrees(was, ix[i], hash, i);
          AgreesInsert(was, index[i], hash, i, loc, item);
          index := index[i := Insert(index[i], hash(item[i]), loc)];
        }
        forall c | 0 <= c < i ensures IndexOk(c) {
          assert old@L(IndexOk(c));
        }
      }
    }

    static lemma AcceptedAdmissible(columns: seq<Column>, hasIndex: seq<bool>, items: multiset<Item>, item: Item)
      requires |hasIndex| == |columns| && ItemFits(columns, item) && Accepts(columns, hasIndex, items, item)
      ensures Admissible(columns, item)
    {
      forall i | 0 <= i < |columns| && columns[i].notNull ensures item[i] != Null {
        assert ColumnAccepts(columns, hasIndex, items, item, i);
      }
    }

    static lemma SoundPlaced(columns: seq<Column>, was: map<Location, Item>, loc: Location, item: Item)
      requires Admissible(columns, item)
      requires forall l {:trigger Admissible(columns, was[l])} | l in was :: Admissible(columns, was[l])
      ensures forall l {:trigger Admissible(columns, was[loc := item][l])} | l in was[loc := item] ::
        Admissible(columns, was[loc := item][l])
    {
      var now := was[loc := item];
      forall l | l in now ensures Admissible(columns, now[l]) {
        assert l != loc ==> Admissible(columns, was[l]);
      }
    }

    /** An accepted item leaves the enforced columns without twins. */
    lemma StillUnique(was: map<Location, Item>, before: seq<Location>, loc: Location, item: Item)
      requires Sound() && loc !in was && rows == was[loc := item]
      requires forall x :: x in before <==> x in was
      requires |item| == |columns| && Accepts(columns, hasIndex, Bag(was, before), item)
      requires forall l {:trigger Admissible(columns, was[l])} | l in was :: Admissible(columns, was[l])
      ensures (forall c {:trigger NoTwins(was, c)} | 0 <= c < |columns| && columns[c].unique && hasIndex[c] ::
                 NoTwins(was, c))
          ==> Unique()
    {
      if forall c {:trigger NoTwins(was, c)} | 0 <= c < |columns| && columns[c].unique && hasIndex[c] ::
           NoTwins(was, c)
      {
        forall c | 0 <= c < |columns| && columns[c].unique && hasIndex[c] ensures NoTwins(rows, c) {
          assert NoTwins(was, c) && ColumnAccepts(columns, hasIndex, Bag(was, before), item, c);
          forall l | l in was ensures c < |was[l]| {
            assert Admissible(columns, was[l]);
          }
          NoTwinsInsert(was, before, c, loc, item);
        }
      }
    }

    lemma AllAgree()
      requires Valid()
      ensures forall c {:trigger Agrees(rows, index[c], hash, c)} | 0 <= c < |columns| && hasIndex[c] ::
        Agrees(rows, index[c], hash, c)
    {
      forall c | 0 <= c < |columns| && hasIndex[c] ensures Agrees(rows, index[c], hash, c) {
        assert IndexOk(c);
      }
    }

    /**
     insertInTable, at the location that the record manager gives: false and no change if a check fails, else one more
     row.
     */
    method InsertInTable(item: Item, loc: Location) returns (ok: bool)
      requires Valid() && ItemFits(columns, item) && loc !in rows
      modifies this`rows, this`order, this`index
      ensures Valid() && (ok <==> Accepts(columns, hasIndex, old(Content()), item))
      ensures rows == if ok then old(rows)[loc := item] else old(rows)
      ensures Content() == old(Content()) + if ok then multiset{item} else multiset{}
      ensures old(Unique()) ==> Unique()
    {
      ok := CheckColumns(item);
      if !ok {
        return;
      }
      ghost var was, before, items := rows, order, Content();
      PlacedOk(rows, order, loc, item);
      PlacedOrdered(order, loc);
      AcceptedAdmissible(columns, hasIndex, items, item);
      AllAgree();
      rows, order := rows[loc := item], Placed(order, loc);
      SoundPlaced(columns, was, loc, item);
      InsertInIndexes(item, loc, was);
      StillUnique(was, before, loc, item);
    }

    /** A row that is being deleted leaves every index. */
    method RemoveFromIndexes(loc: Location, item: Item, ghost was: map<Location, Item>)
      requires Sound() && loc in was && item == was[loc] && |item| == |columns| && rows == was - {loc}
      requires forall c {:trigger Agrees(was, index[c], hash, c)} | 0 <= c < |columns| && hasIndex[c] ::
        Agrees(was, index[c], hash, c)
      modifies this`index
      ensures Valid()
    {
      ghost var ix := index;
      for i := 0 to |columns|
        invariant |index| == |ix| && forall c :: i <= c < |ix| ==> index[c] == ix[c]
        invariant forall c {:trigger IndexOk(c)} | 0 <= c < i :: IndexOk(c)
      {
        label L:
        if hasIndex[i] {
          assert index[i] == ix[i] && Agrees(was, ix[i], hash, i);
          LiveIsBound(was, index[i], hash, i, loc);
          AgreesRemove(was, index[i], hash, i, hash(item[i]), {loc}, s => s == loc);
          index := index[i := Remove(index[i], hash(item[i]), s => s == loc)];
        }
        forall c | 0 <= c < i ensures IndexOk(c) {
          assert old@L(IndexOk(c));
        }
      }
    }

    static lemma DistinctErased(s: seq<Location>, at: nat)
      requires Distinct(s) && at < |s|
      ensures var t := s[..at] + s[at + 1..];
        Distinct(t) && forall x :: x in t <==> x in s && x != s[at]
    {
      var t := s[..at] + s[at + 1..];
      assert s == s[..at] + [s[at]] + s[at + 1..];
      assert multiset(s) == multiset(t) + multiset{s[at]};
      forall x ensures multiset(t)[x] <= 1 && (x in t <==> x in s && x != s[at]) {
        assert multiset(s)[x] <= 1;
        assert x in multiset(t) <==> x in t;
        assert x in multiset(s) <==> x in s;
      }
    }

    static lemma SoundWithout(columns: seq<Column>, was: map<Location, Item>, gone: set<Location>)
      requires forall l {:trigger Admissible(columns, was[l])} | l in was :: Admissible(columns, was[l])
      ensures forall l {:trigger Admissible(columns, (was - gone)[l])} | l in was - gone ::
        Admissible(columns, (was - gone)[l])
    {
      forall l | l in was - gone ensures Admissible(columns, (was - gone)[l]) {
        assert Admissible(columns, was[l]);
      }
    }

    /** One step of the deleting scan: the row at position `at` of the order goes, with its index entries. */
    method DropRow(at: nat)
      requires Valid() && at < |order|
      modifies this`rows, this`order, this`index
      ensures Valid() && rows == old(rows) - {old(order)[at]}
      ensures order == old(order)[..at] + old(order)[at + 1..]
    {
      ghost var was := rows;
      var loc := order[at];
      assert Admissible(columns, rows[loc]);
      AllAgree();
      DistinctErased(order, at);
      OrderedErased(order, at);
      var item := rows[loc];
      rows, order := rows - {loc}, order[..at] + order[at + 1..];
      SoundWithout(columns, was, {loc});
      RemoveFromIndexes(loc, item, was);
    }

    static ghost function Stays(was: map<Location, Item>, checker: Item -> bool): Location -> bool {
      l => !(l in was && checker(was[l]))
    }

    /** The first `n` scanned locations, split by the checker. */
    static ghost predicate Split(was: map<Location, Item>, scan: seq<Location>, checker: Item -> bool, n: nat,
                                 gone: seq<Location>, stay: seq<Location>) {
      && n <= |scan|
      && gone == FilterUpTo(scan, Picks(was, checker), n) && stay == FilterUpTo(scan, Stays(was, checker), n)
    }

    static lemma SplitOneMore(was: map<Location, Item>, scan: seq<Location>, checker: Item -> bool, i: nat,
                              gone: seq<Location>, stay: seq<Location>)
      returns (gone': seq<Location>, stay': seq<Location>)
      requires i < |scan| && scan[i] in was && Split(was, scan, checker, i, gone, stay)
      ensures Split(was, scan, checker, i + 1, gone', stay')
      ensures gone' == if checker(was[scan[i]]) then gone + [scan[i]] else gone
      ensures stay' == if checker(was[scan[i]]) then stay else stay + [scan[i]]
    {
      gone' := if checker(was[scan[i]]) then gone + [scan[i]] else gone;
      stay' := if checker(was[scan[i]]) then stay else stay + [scan[i]];
    }

    /** The rows without those at the locations `gone`, whose items are `ret`. */
    ghost predicate Without(was: map<Location, Item>, gone: seq<Location>, ret: seq<Item>)
      reads this
    {
      && (forall l :: l in rows <==> l in was && l !in gone)
      && (forall l :: l in rows ==> rows[l] == was[l])
      && (forall l :: l in gone ==> l in was)
      && ret == ItemsAt(was, gone)
    }

    /** A deleting scan that has collected `gone` and passed over `stay`, with `rest` to come. */
    ghost predicate Swept(was: map<Location, Item>, gone: seq<Location>, stay: seq<Location>, rest: seq<Location>,
                          ret: seq<Item>)
      reads this
    {
      order == stay + rest && Without(was, gone, ret)
    }

    /** One turn of the deleting scan. */
    method SweepRow(ghost was: map<Location, Item>, ghost gone: seq<Location>, ghost stay: seq<Location>,
                    ghost rest: seq<Location>, checker: Item -> bool, at: nat, ret: seq<Item>)
      returns (at': nat, ret': seq<Item>)
      requires Valid() && Swept(was, gone, stay, rest, ret) && at == |stay| && rest != []
      modifies this`rows, this`order, this`index
      ensures Valid() && rest[0] in was
      ensures if checker(was[rest[0]]) then Swept(was, gone + [rest[0]], stay, rest[1..], ret') && at' == at
              else Swept(was, gone, stay + [rest[0]], rest[1..], ret') && at' == at + 1
    {
      assert order[at] == rest[0] && rest[0] in order;
      var item := rows[order[at]];
      if checker(item) {
        ItemsAtAppend(was, gone, rest[0]);
        assert order[..at] == stay && order[at + 1..] == rest[1..];
        DropRow(at);
        at', ret' := at, ret + [item];
      } else {
        assert stay + rest == stay + [rest[0]] + rest[1..];
        at', ret' := at + 1, ret;
      }
    }

    static lemma FilterParts(items: seq<Item>, checker: Item -> bool)
      ensures multiset(Filter(items, x => !checker(x))) + multiset(Filter(items, checker)) == multiset(items)
    {
      var stays := x => !checker(x);
      var a, b := Filter(items, stays), Filter(items, checker);
      forall x ensures (multiset(a) + multiset(b))[x] == multiset(items)[x] {
        FilterCount(items, checker, x);
        FilterCount(items, stays, x);
      }
    }

    /** The deleting scan when it is over. */
    lemma SweptAll(was: map<Location, Item>, scan: seq<Location>, checker: Item -> bool,
                   gone: seq<Location>, stay: seq<Location>, ret: seq<Item>)
      requires Sound()
      requires Swept(was, gone, stay, [], ret) && Split(was, scan, checker, |scan|, gone, stay)
      requires Distinct(scan) && forall l :: l in scan <==> l in was
      ensures ret == Filter(ItemsAt(was, scan), checker) && Items() == Filter(ItemsAt(was, scan), x => !checker(x))
      ensures Content() + multiset(ret) == Bag(was, scan)
      ensures forall l :: l in rows <==> l in was && !checker(was[l])
    {
      var pick, stays := Picks(was, checker), Stays(was, checker);
      assert order == Filter(scan, stays);
      forall l ensures l in Filter(scan, pick) <==> l in was && checker(was[l]) {
        FilterMember(scan, pick, l);
      }
      FilterItems(was, scan, pick, checker, |scan|);
      FilterItems(was, scan, stays, x => !checker(x), |scan|);
      assert Items() == ItemsAt(was, order);
      FilterParts(ItemsAt(was, scan), checker);
    }

    method SweepTurn(ghost was: map<Location, Item>, ghost scan: seq<Location>, ghost i: nat, ghost gone: seq<Location>,
                     ghost stay: seq<Location>, checker: Item -> bool, at: nat, ret: seq<Item>)
      returns (at': nat, ret': seq<Item>, ghost gone': seq<Location>, ghost stay': seq<Location>)
      requires Valid() && i < |scan| && Swept(was, gone, stay, scan[i..], ret) && at == |stay|
      requires Split(was, scan, checker, i, gone, stay)
      modifies this`rows, this`order, this`index
      ensures Valid() && Swept(was, gone', stay', scan[i + 1..], ret') && at' == |stay'|
      ensures Split(was, scan, checker, i + 1, gone', stay')
    {
      ghost var rest := scan[i..];
      assert rest[0] == scan[i] && rest[1..] == scan[i + 1..];
      at', ret' := SweepRow(was, gone, stay, rest, checker, at, ret);
      gone', stay' := SplitOneMore(was, scan, checker, i, gone, stay);
    }

    /** The deleting scan. */
    method Sweep(checker: Item -> bool) returns (ret: seq<Item>, ghost gone: seq<Location>, ghost stay: seq<Location>)
      requires Valid()
      modifies this`rows, this`order, this`index
      ensures Valid() && Swept(old(rows), gone, stay, [], ret)
          && Split(old(rows), old(order), checker, |old(order)|, gone, stay)
    {
      ghost var was, scan := rows, order;
      ret, gone, stay := [], [], [];
      var at, n := 0, |order|;
      for i := 0 to n
        invariant Valid() && Swept(was, gone, stay, scan[i..], ret) && at == |stay|
        invariant Split(was, scan, checker, i, gone, stay)
      {
        at, ret, gone, stay := SweepTurn(was, scan, i, gone, stay, checker, at, ret);
      }
      assert scan[n..] == [];
    }

    static lemma NotYet(s: seq<Location>, i: nat)
      requires Distinct(s) && i < |s|
      ensures s[i] !in s[..i]
    {
      var x, front := s[i], s[..i];
      assert x in front <==> x in multiset(front);
      assert s == front + [x] + s[i + 1..];
      assert multiset(s) == multiset(front) + multiset{x} + multiset(s[i + 1..]);
      assert multiset(s)[x] <= 1;
    }

    lemma CollectedApartAt(was: map<Location, Item>, gone: seq<Location>, ret: seq<Item>, c: nat, i: nat)
      requires Sound() && Without(was, gone, ret) && Distinct(gone) && NoTwins(was, c)
      requires Enforced(columns, hasIndex, c) && i < |ret| && c < |ret[i]|
      ensures ApartAt(columns, hasIndex, Content(), ret, c, i)
    {
      assert ret[i] == was[gone[i]] && gone[i] in gone;
      forall x | x in Content() && c < |x| && ret[i][c] != Null ensures x[c] != ret[i][c] {
        BagMember(rows, order, x);
        var l :| l in rows && rows[l] == x;
        assert l in was && l !in gone;
      }
      forall j | 0 <= j < |ret| && j != i && c < |ret[j]| && ret[i][c] != Null ensures ret[j][c] != ret[i][c] {
        assert ret[j] == was[gone[j]] && gone[j] in gone;
        NotYet(gone, if i < j then j else i);
        assert gone[i] != gone[j] by {
          assert i < j ==> gone[i] in gone[..j];
          assert j < i ==> gone[j] in gone[..i];
        }
      }
    }

    /** The rows that left a table without twins share no enforced value with each other or with the rows that stay. */
    lemma CollectedApart(was: map<Location, Item>, gone: seq<Location>, ret: seq<Item>)
      requires Sound() && Without(was, gone, ret) && Distinct(gone)
      ensures (forall c {:trigger NoTwins(was, c)} | 0 <= c < |columns| && columns[c].unique && hasIndex[c] ::
                 NoTwins(was, c))
          ==> Apart(columns, hasIndex, Content(), ret)
    {
      if forall c {:trigger NoTwins(was, c)} | 0 <= c < |columns| && columns[c].unique && hasIndex[c] ::
           NoTwins(was, c)
      {
        forall c: nat, i: nat | Enforced(columns, hasIndex, c) && i < |ret| && c < |ret[i]|
          ensures ApartAt(columns, hasIndex, Content(), ret, c, i)
        {
          assert NoTwins(was, c);
          CollectedApartAt(was, gone, ret, c, i);
        }
      }
    }

    /** Fewer rows have no more twins. */
    lemma UniqueWithout(was: map<Location, Item>)
      requires Sound() && forall l :: l in rows ==> l in was && rows[l] == was[l]
      ensures (forall c {:trigger NoTwins(was, c)} | 0 <= c < |columns| && columns[c].unique && hasIndex[c] ::
                 NoTwins(was, c))
          ==> Unique()
    {
      if forall c {:trigger NoTwins(was, c)} | 0 <= c < |columns| && columns[c].unique && hasIndex[c] ::
           NoTwins(was, c)
      {
        forall c | 0 <= c < |columns| && columns[c].unique && hasIndex[c] ensures NoTwins(rows, c) {
          assert NoTwins(was, c);
        }
      }
    }

    /**
     deleteAndCollectItems: the rows that the checker picks leave the table and all its indexes, and are returned in
     scan order; the others stay where they are.
     */
    method DeleteAndCollectItems(checker: Item -> bool) returns (ret: seq<Item>)
      requires Valid()
      modifies this`rows, this`order, this`index
      ensures Valid() && ret == Filter(old(Items()), checker) && Items() == Filter(old(Items()), x => !checker(x))
      ensures Scans(old(rows), checker, ret)
      ensures Content() + multiset(ret) == old(Content())
      ensures forall l :: l in rows <==> l in old(rows) && !checker(old(rows)[l])
      ensures forall l :: l in rows ==> rows[l] == old(rows)[l]
      ensures old(Unique()) ==> Unique() && Apart(columns, hasIndex, Content(), ret)
    {
      ghost var was, scan := rows, order;
      ghost var gone, stay;
      ItemsScanned(checker);
      ret, gone, stay := Sweep(checker);
      SweptAll(was, scan, checker, gone, stay, ret);
      UniqueWithout(was);
      DistinctFilter(scan, Picks(was, checker));
      CollectedApart(was, gone, ret);
    }

    static lemma RowLeaves(rows: map<Location, Item>, order: seq<Location>, loc: Location)
      requires Distinct(order) && (forall l :: l in order <==> l in rows) && loc in rows
      ensures var left := Filter(order, l => l != loc);
        && Distinct(left) && (forall l :: l in left <==> l in rows - {loc})
        && Bag(rows - {loc}, left) + multiset{rows[loc]} == Bag(rows, order)
    {
      var p := l => l != loc;
      var left, now := Filter(order, p), rows - {loc};
      DistinctFilter(order, p);
      forall l ensures l in left <==> l in now {
        FilterMember(order, p, l);
      }
      forall l ensures multiset(left + [loc])[l] == multiset(order)[l] {
        FilterCount(order, p, l);
        assert multiset(order)[l] <= 1;
        assert loc in multiset(order) <==> loc in order;
      }
      ItemsAtPermuted(rows, left + [loc], order);
      ItemsAtAppend(rows, left, loc);
      assert ItemsAt(now, left) == ItemsAt(rows, left);
    }

    /** deleteRecord: one row leaves the record file; the indexes are not touched. */
    method DeleteRecord(loc: Location)
      requires Sound() && loc in rows
      modifies this`rows, this`order
      ensures Sound() && rows == old(rows) - {loc}
      ensures Content() + multiset{old(rows)[loc]} == old(Content())
    {
      RowLeaves(rows, order, loc);
      OrderedFilter(order, l => l != loc, |order|);
      SoundWithout(columns, rows, {loc});
      rows, order := rows - {loc}, Filter(order, l => l != loc);
    }

    static lemma NotYetPicked(s: seq<Location>, p: Location -> bool, i: nat)
      requires Distinct(s) && i < |s|
      ensures s[i] !in FilterUpTo(s, p, i)
    {
      NotYet(s, i);
      FilterUpToCount(s, p, i, s[i]);
      assert s[i] in FilterUpTo(s, p, i) <==> s[i] in multiset(FilterUpTo(s, p, i));
      assert s[i] in s[..i] <==> s[i] in multiset(s[..i]);
    }

    /** One turn of the deleting lookup: an entry that matches leaves, and its row is collected. */
    method PickRow(vec: seq<Location>, offset: nat, v: Cell, checker: Item -> bool, i: nat, ret: seq<Item>,
                   gone: seq<Location>, ghost was: map<Location, Item>)
      returns (ret': seq<Item>, gone': seq<Location>)
      requires Sound() && Without(was, gone, ret) && offset < |columns|
      requires Distinct(vec) && (forall l :: l in vec ==> l in was) && i < |vec|
      requires gone == FilterUpTo(vec, Picks(was, Matching(offset, v, checker)), i)
      modifies this`rows, this`order
      ensures Sound() && Without(was, gone', ret') && Content() + multiset(ret') == old(Content()) + multiset(ret)
      ensures gone' == FilterUpTo(vec, Picks(was, Matching(offset, v, checker)), i + 1)
    {
      NotYetPicked(vec, Picks(was, Matching(offset, v, checker)), i);
      var loc := vec[i];
      assert Admissible(columns, rows[loc]);
      var item := rows[loc];
      if v == item[offset] && checker(item) {
        ItemsAtAppend(was, gone, loc);
        assert multiset(ret + [item]) == multiset(ret) + multiset{item};
        ret', gone' := ret + [item], gone + [loc];
        DeleteRecord(loc);
      } else {
        ret', gone' := ret, gone;
      }
    }

    /** The loop of the deleting lookup. */
    method PickRows(vec: seq<Location>, offset: nat, v: Cell, checker: Item -> bool)
      returns (ret: seq<Item>, gone: seq<Location>)
      requires Sound() && Distinct(vec) && (forall l :: l in vec ==> l in rows) && offset < |columns|
      modifies this`rows, this`order
      ensures Sound() && Content() + multiset(ret) == old(Content())
      ensures gone == Filter(vec, Picks(old(rows), Matching(offset, v, checker)))
      ensures Without(old(rows), gone, ret)
    {
      ghost var was := rows;
      ret, gone := [], [];
      for i := 0 to |vec|
        invariant Sound() && Without(was, gone, ret) && Content() + multiset(ret) == old(Content())
        invariant gone == FilterUpTo(vec, Picks(was, Matching(offset, v, checker)), i)
      {
        ret, gone := PickRow(vec, offset, v, checker, i, ret, gone, was);
      }
    }

    static lemma NonePicked(items: seq<Item>, picked: seq<Item>, p: Item -> bool)
      requires multiset(picked) == multiset(Filter(items, p))
      ensures picked == [] <==> NoneMatches(items, p)
    {
      forall x ensures x in picked <==> x in items && p(x) {
        FilterMember(items, p, x);
        assert x in picked <==> x in multiset(picked);
        assert x in Filter(items, p) <==> x in multiset(Filter(items, p));
      }
      if picked != [] {
        assert picked[0] in picked;
      }
    }

    /** The row at a location, if any, is still there unless it matches. */
    static ghost predicate StaysIf(was: map<Location, Item>, now: map<Location, Item>, matches: Item -> bool,
                                   l: Location)
    {
      (l in now <==> l in was && !matches(was[l])) && (l in now ==> now[l] == was[l])
    }

    /** Exactly the rows that match have left, and the others are where they were. */
    static ghost predicate OthersStay(was: map<Location, Item>, now: map<Location, Item>, matches: Item -> bool) {
      forall l {:trigger StaysIf(was, now, matches, l)} :: StaysIf(was, now, matches, l)
    }

    /** What the deleting lookup collected, and the index that it cleaned. */
    lemma LookedUp(was: map<Location, Item>, scan: seq<Location>, ix: seq<Index>, vec: seq<Location>, offset: nat,
                   v: Cell, checker: Item -> bool, gone: seq<Location>, ret: seq<Item>)
      requires Distinct(scan) && (forall l :: l in scan <==> l in was)
      requires offset < |ix| && Agrees(was, ix[offset], hash, offset) && vec == Get(ix[offset], hash(v))
      requires gone == Filter(vec, Picks(was, Matching(offset, v, checker)))
      requires (forall l :: l in gone ==> l in was) && ret == ItemsAt(was, gone)
      ensures multiset(ret) == multiset(Filter(ItemsAt(was, scan), Matching(offset, v, checker)))
      ensures OthersStay(was, was - (set l | l in gone), Matching(offset, v, checker))
      ensures hash(v) in ix[offset] ==>
        Agrees(was - (set l | l in gone), Remove(ix[offset], hash(v), s => s in gone), hash, offset)
    {
      var matches := Matching(offset, v, checker);
      var p := Picks(was, matches);
      LookupIsScan(was, ix[offset], hash, offset, scan, v, p);
      FilterItems(was, scan, p, matches, |scan|);
      forall l | l in was ensures l in gone <==> matches(was[l]) {
        FilterMember(vec, p, l);
        assert Entry(was, ix[offset], hash, offset, hash(v), l);
      }
      var now := was - (set l | l in gone);
      forall l ensures StaysIf(was, now, matches, l) {
      }
      if hash(v) in ix[offset] {
        AgreesRemove(was, ix[offset], hash, offset, hash(v), (set l | l in gone), s => s in gone);
      }
    }

    /**
     The rows with value `v` in an indexed column that pass the checker leave the record file; the index is not
     cleaned.
     */
    method PickMatches(offset: nat, v: Cell, checker: Item -> bool) returns (ret: seq<Item>, gone: seq<Location>)
      requires Valid() && offset < |columns| && hasIndex[offset]
      modifies this`rows, this`order
      ensures Sound() && Content() + multiset(ret) == old(Content())
      ensures multiset(ret) == multiset(Filter(old(Items()), Matching(offset, v, checker)))
      ensures (forall l :: l in gone ==> l in old(rows)) && rows == old(rows) - (set l | l in gone)
      ensures OthersStay(old(rows), rows, Matching(offset, v, checker))
      ensures gone == [] <==> NoneMatches(old(Items()), Matching(offset, v, checker))
      ensures hash(v) !in index[offset] ==> gone == [] && ret == []
      ensures hash(v) in index[offset] ==> Agrees(rows, Remove(index[offset], hash(v), s => s in gone), hash, offset)
    {
      ghost var was, scan := rows, order;
      assert IndexOk(offset);
      var vec := Get(index[offset], hash(v));
      assert Distinct(vec);
      forall l | l in vec ensures l in rows {
        assert Entry(rows, index[offset], hash, offset, hash(v), l);
      }
      ret, gone := PickRows(vec, offset, v, checker);
      LookedUp(was, scan, index, vec, offset, v, checker, gone, ret);
      NonePicked(ItemsAt(was, scan), ret, Matching(offset, v, checker));
    }

    /** If no row left, all indexes agree still. */
    lemma NothingPicked(was: map<Location, Item>, gone: seq<Location>)
      requires Sound() && gone == [] && rows == was - (set l | l in gone)
      requires forall c {:trigger Agrees(was, index[c], hash, c)} | 0 <= c < |columns| && hasIndex[c] ::
        Agrees(was, index[c], hash, c)
      ensures Valid() && rows == was
    {
      assert rows == was;
    }

    /** The indexes that were not cleaned are stale, unless nothing was deleted. */
    lemma CleanedOnly(was: map<Location, Item>, ix: seq<Index>, offset: nat, gone: seq<Location>)
      requires Sound() && |ix| == |columns| && offset < |ix| && IndexOk(offset)
      requires (forall l :: l in gone ==> l in was) && rows == was - (set l | l in gone)
      requires forall c :: 0 <= c < |columns| && c != offset ==> index[c] == ix[c]
      requires forall c {:trigger Agrees(was, ix[c], hash, c)} | 0 <= c < |columns| && hasIndex[c] ::
        Agrees(was, ix[c], hash, c)
      requires forall l {:trigger Admissible(columns, was[l])} | l in was :: Admissible(columns, was[l])
      ensures Valid() <==> gone == [] || OnlyIndexed(columns, hasIndex, offset)
    {
      forall c | 0 <= c < |columns| && hasIndex[c] && c != offset ensures IndexOk(c) <==> gone == [] {
        assert Agrees(was, ix[c], hash, c);
        forall l | l in was ensures c < |was[l]| {
          assert Admissible(columns, was[l]);
        }
        var left := set l | l in gone;
        StaleIndex(was, ix[c], hash, c, left);
        assert gone != [] ==> gone[0] in left;
      }
    }

    /** The end of the deleting lookup: the index that was asked forgets the rows that left. */
    method CleanIndex(offset: nat, h: Key, gone: seq<Location>, ghost was: map<Location, Item>)
      requires Sound() && offset < |columns| && hasIndex[offset] && h in index[offset]
      requires (forall l :: l in gone ==> l in was) && rows == was - (set l | l in gone)
      requires forall c {:trigger Agrees(was, index[c], hash, c)} | 0 <= c < |columns| && hasIndex[c] ::
        Agrees(was, index[c], hash, c)
      requires forall l {:trigger Admissible(columns, was[l])} | l in was :: Admissible(columns, was[l])
      requires Agrees(rows, Remove(index[offset], h, s => s in gone), hash, offset)
      modifies this`index
      ensures Sound() && IndexOk(offset)
      ensures index == old(index)[offset := index[offset]]
      ensures Valid() <==> gone == [] || OnlyIndexed(columns, hasIndex, offset)
    {
      ghost var ix := index;
      index := index[offset := Remove(index[offset], h, s => s in gone)];
      CleanedOnly(was, ix, offset, gone);
    }

    /**
     deleteAndCollectUseIndex: like the deleting scan, for the rows with value `v` in an indexed column. Only that
     index is cleaned, so the table stays valid exactly if there is no row to delete or no other index. If the index
     never listed a row under the hash of `v`, the source ends with an uncaught KeyNotFound, which is the result
     false.
     */
    method DeleteAndCollectUseIndex(offset: nat, v: Cell, checker: Item -> bool) returns (found: bool, ret: seq<Item>)
      requires Valid() && offset < |columns| && hasIndex[offset]
      modifies this`rows, this`order, this`index
      ensures found <==> hash(v) in old(index)[offset]
      ensures !found ==> ret == [] && rows == old(rows)
      ensures Sound() && Content() + multiset(ret) == old(Content())
      ensures multiset(ret) == multiset(Filter(old(Items()), Matching(offset, v, checker)))
      ensures OthersStay(old(rows), rows, Matching(offset, v, checker))
      ensures IndexOk(offset) && index == old(index)[offset := index[offset]]
      ensures old(Unique()) ==> Unique()
      ensures Valid() <==>
        NoneMatches(old(Items()), Matching(offset, v, checker)) || OnlyIndexed(columns, hasIndex, offset)
    {
      ghost var was := rows;
      AllAgree();
      var gone;
      ret, gone := PickMatches(offset, v, checker);
      found := hash(v) in index[offset];
      if found {
        CleanIndex(offset, hash(v), gone, was);
      } else {
        NothingPicked(was, gone);
      }
      UniqueWithout(was);
    }

    /** One turn of updateItems. */
    method GiveBack(item: Item, changed: Item, spot: Location) returns (ok: bool)
      requires Valid() && ItemFits(columns, item) && ItemFits(columns, changed) && spot !in rows
      modifies this`rows, this`order, this`index
      ensures Valid() && (old(Unique()) ==> Unique())
      ensures var back := Comeback(columns, hasIndex, old(Content()), item, changed);
        && (ok <==> back.Some?)
        && rows == (if ok then old(rows)[spot := back.value] else old(rows))
        && Content() == old(Content()) + if ok then multiset{back.value} else multiset{}
    {
      ghost var bag := Content();
      ok := InsertInTable(changed, spot);
      if !ok {
        assert Content() == bag;
        ok := InsertInTable(item, spot);
      }
    }

    /** Where the record manager puts the rows that come back from the `n`-th on: free locations, all different. */
    ghost predicate Free(spots: seq<Location>, n: nat)
      reads this
    {
      && (forall i :: n <= i < |spots| ==> spots[i] !in rows)
      && forall i, j :: n <= i < j < |spots| ==> spots[i] != spots[j]
    }

    /** The rows that were there are still there. */
    ghost predicate Keeps(was: map<Location, Item>)
      reads this
    {
      forall l :: l in was ==> l in rows && rows[l] == was[l]
    }

    /** The loop of updateItems before row `i`: what is left to do leads from here to the result. */
    ghost predicate Underway(items: seq<Item>, changer: Item -> Item, spots: seq<Location>, i: nat,
                             bag: multiset<Item>, was: map<Location, Item>)
      reads this
    {
      && Valid() && i <= |items| == |spots| && Free(spots, i) && Keeps(was) && Typed(columns, items, changer)
      && UpdateFrom(columns, hasIndex, Content(), items, changer, i)
         == AfterUpdate(columns, hasIndex, bag, items, changer)
    }

    method UpdateTurn(items: seq<Item>, changer: Item -> Item, spots: seq<Location>, i: nat, ghost bag: multiset<Item>,
                      ghost was: map<Location, Item>)
      returns (ok: bool)
      requires Underway(items, changer, spots, i, bag, was) && i < |items|
      modifies this`rows, this`order, this`index
      ensures Valid() && (old(Unique()) ==> Unique()) && Keeps(was)
      ensures if ok then Underway(items, changer, spots, i + 1, bag, was)
              else AfterUpdate(columns, hasIndex, bag, items, changer) == DoubleFault(Content())
    {
      ok := GiveBack(items[i], changer(items[i]), spots[i]);
    }

    /**
     updateItems: the collected rows are given back one after the other, changed if the table takes the change and
     else as they were. True is the source's DoubleFault: a row that could not come back either way.
     */
    method UpdateItems(items: seq<Item>, changer: Item -> Item, spots: seq<Location>) returns (fault: bool)
      requires Valid() && Typed(columns, items, changer) && Free(spots, 0) && |spots| == |items|
      modifies this`rows, this`order, this`index
      ensures Valid() && (old(Unique()) ==> Unique())
      ensures (if fault then DoubleFault(Content()) else Updated(Content()))
           == AfterUpdate(columns, hasIndex, old(Content()), items, changer)
      ensures Keeps(old(rows))
    {
      ghost var bag, was := Content(), rows;
      for i := 0 to |items|
        invariant Underway(items, changer, spots, i, bag, was) && (old(Unique()) ==> Unique())
      {
        var ok := UpdateTurn(items, changer, spots, i, bag, was);
        if !ok {
          return true;
        }
      }
      return false;
    }

    /** The rows that a checker picks fit the columns, before and after the SET clause. */
    lemma PickedTyped(checker: Item -> bool, sets: seq<Setting>)
      requires Sound() && SettingsOk(columns, sets)
      ensures Typed(columns, Filter(Items(), checker), Changer(sets))
      ensures forall k :: 0 <= k < |Filter(Items(), checker)| ==> Admissible(columns, Filter(Items(), checker)[k])
    {
      var picked := Filter(Items(), checker);
      forall k | 0 <= k < |picked| ensures Admissible(columns, picked[k]) {
        FilterMember(Items(), checker, picked[k]);
        var i :| 0 <= i < |order| && Items()[i] == picked[k];
        assert Admissible(columns, rows[order[i]]);
      }
      ChangerTyped(columns, sets, picked);
    }

    /**
     UPDATE without an index: the rows that the checker picks are collected and given back changed. Uniqueness
     survives even a double fault, the table before the update decides whether there is one, and a change that leaves
     the key columns alone is applied to all of the rows.
     */
    method UpdateWhere(checker: Item -> bool, sets: seq<Setting>, spots: seq<Location>) returns (fault: bool)
      requires Valid() && Unique() && SettingsOk(columns, sets)
      requires |spots| == |Filter(Items(), checker)| && forall i, j :: 0 <= i < j < |spots| ==> spots[i] != spots[j]
      requires forall l :: l in spots && l in rows ==> checker(rows[l])
      modifies this`rows, this`order, this`index
      ensures Valid() && Unique()
      ensures Typed(columns, old(Filter(Items(), checker)), Changer(sets))
      ensures Scans(old(rows), checker, old(Filter(Items(), checker)))
      ensures var picked, stay := old(Filter(Items(), checker)), multiset(old(Filter(Items(), x => !checker(x))));
        && (fault <==> WillFault(columns, hasIndex, stay, picked, Changer(sets), Values(sets)))
        && (if fault then DoubleFault(Content()) else Updated(Content()))
             == AfterUpdate(columns, hasIndex, stay, picked, Changer(sets))
        && (AllHarmless(columns, hasIndex, picked, Changer(sets)) ==>
              !fault && Content() == stay + multiset(Mapped(picked, Changer(sets))))
        && (!fault && (picked == [] || !Accepts(columns, hasIndex, stay, Changer(sets)(picked[0]))) ==>
              Content() == stay + multiset(picked))
        && (!fault && picked != [] && Accepts(columns, hasIndex, stay, Changer(sets)(picked[0])) ==>
              Content() == stay + multiset(Returned(picked, Changer(sets), !SetsKey(columns, hasIndex, Values(sets)))))
    {
      PickedTyped(checker, sets);
      var deleted := DeleteAndCollectItems(checker);
      ghost var bag := Content();
      fault := UpdateItems(deleted, Changer(sets), spots);
      ChangerSets(sets);
      FaultExactly(columns, hasIndex, bag, deleted, Changer(sets), Values(sets));
      if !fault {
        UpdatedExactly(columns, hasIndex, bag, deleted, Changer(sets), Values(sets));
      }
      if AllHarmless(columns, hasIndex, deleted, Changer(sets)) {
        HarmlessUpdate(columns, hasIndex, bag, deleted, Changer(sets));
      }
    }

    /** The loop of CREATE INDEX: every row's cell goes to the index. */
    method BuildIndex(c: nat, was: Index) returns (ix: Index)
      requires Sound() && c < |columns|
      ensures AddedTo(was, rows, ix, hash, c)
    {
      ix := was;
      ghost var seen: map<Location, Item> := map[];
      AddedNone(was, hash, c);
      for i := 0 to |order|
        invariant seen == map l | l in order[..i] :: rows[l]
        invariant AddedTo(was, seen, ix, hash, c)
      {
        NotYet(order, i);
        var loc := order[i];
        assert loc in order && Admissible(columns, rows[loc]);
        AddedOneMore(was, seen, ix, hash, c, loc, rows[loc]);
        seen := seen[loc := rows[loc]];
        ix := Insert(ix, hash(rows[loc][c]), loc);
        assert order[..i + 1] == order[..i] + [loc];
      }
      assert order[..|order|] == order;
      assert seen == rows;
    }

    /** What an index for one more column adds to agreement and uniqueness. */
    twostate lemma OneMoreIndex(c: nat)
      requires old(Valid()) && Sound() && c < |columns| && rows == old(rows) && hasIndex == old(hasIndex)[c := true]
      requires index == old(index)[c := index[c]]
      ensures Valid() <==> IndexOk(c)
      ensures old(Unique()) ==> (Unique() <==> columns[c].unique ==> NoTwins(rows, c))
    {
      forall k | k != c ensures IndexOk(k) {
        assert old(IndexOk(k));
      }
    }

    /**
     CREATE INDEX: false if the column has one already. Else the rows are added to the column's index file, which is
     set up only if there is none; so the index agrees with the rows exactly if no earlier index left entries behind.
     */
    method CreateIndex(c: nat) returns (built: bool)
      requires Valid() && c < |columns|
      modifies this`hasIndex, this`hasFile, this`index
      ensures Sound() && built == !old(hasIndex)[c] && hasIndex == old(hasIndex)[c := true]
      ensures Valid() <==> (built && old(hasFile)[c] ==> Blank(old(index)[c]))
      ensures old(Unique()) ==> (Unique() <==> columns[c].unique ==> NoTwins(rows, c))
    {
      if hasIndex[c] {
        assert hasIndex[c := true] == hasIndex;
        return false;
      }
      var was := if hasFile[c] then index[c] else map[];
      label L:
      var ix := BuildIndex(c, was);
      BuiltOnBlank(was, rows, ix, hash, c);
      hasIndex, hasFile, index := hasIndex[c := true], hasFile[c := true], index[c := ix];
      OneMoreIndex@L(c);
      return true;
    }

    /**
     DROP INDEX: the column is no longer looked up, and no longer checked for uniqueness. The source deletes a file of
     that name in the wrong directory, so the index file stays, with an entry for every row there is.
     */
    method DropIndex(c: nat) returns (dropped: bool)
      requires Valid() && c < |columns|
      modifies this`hasIndex
      ensures Valid() && dropped == old(hasIndex)[c] && hasIndex == old(hasIndex)[c := false]
      ensures dropped ==> (Blank(index[c]) <==> rows == map[])
      ensures old(Unique()) ==> Unique()
    {
      if !hasIndex[c] {
        assert hasIndex[c := false] == hasIndex;
        return false;
      }
      assert IndexOk(c);
      forall l | l in rows ensures c < |rows[l]| {
        assert Admissible(columns, rows[l]);
      }
      BlankIsEmpty(rows, index[c], hash, c);
      label L:
      hasIndex := hasIndex[c := false];
      forall k ensures IndexOk(k) {
        assert old@L(IndexOk(k));
      }
      return true;
    }
  }

  // ---------- where the indexes fail ----------

  /** A delete by index from a new table: the index agrees with the rows, and the call throws. */
  method DeleteFromNewTable(hash: Cell -> Key) returns (t: Table, found: bool)
    ensures !found
  {
    t := new Table([Column("k", IntKind, true, true)], hash);
    assert t.hasIndex[0] && t.index[0] == map[];
    var ret;
    found, ret := t.DeleteAndCollectUseIndex(0, Int(1), _ => true);
  }

  /** A new table with key columns of integers, and one row. */
  method TableOfOne(width: nat, hash: Cell -> Key) returns (t: Table, item: Item)
    requires width > 0
    ensures fresh(t) && t.Valid() && |t.columns| == width && t.hash == hash && t.rows == map[Location(2, 0) := item]
    ensures |item| == width && forall c :: 0 <= c < width ==> item[c] == Int(1) && t.hasIndex[c] && t.hasFile[c]
  {
    var columns := seq(width, _ => Column("k", IntKind, true, true));
    t := new Table(columns, hash);
    item := seq(width, _ => Int(1));
    assert ItemsAt(map[], []) == [] && t.Content() == multiset{} by {
      t.NoContent();
    }
    forall c | 0 <= c < width ensures ColumnAccepts(columns, t.hasIndex, t.Content(), item, c) {
    }
    var ok := t.InsertInTable(item, Location(2, 0));
  }

  /** A delete by one of two indexes: the row leaves, and a lookup of its key in the other index still leads there. */
  method StaleAfterDelete(hash: Cell -> Key) returns (t: Table)
    ensures t.Sound() && !t.Valid()
    ensures |t.index| == 2 && Location(2, 0) in Get(t.index[1], hash(Int(1))) && Location(2, 0) !in t.rows
  {
    var item, found, ret;
    var every := (x: Item) => true;
    t, item := TableOfOne(2, hash);
    t.RowIsListed(Location(2, 0), 0);
    t.RowIsListed(Location(2, 0), 1);
    ghost var rows, was := t.rows, t.Items();
    found, ret := t.DeleteAndCollectUseIndex(0, Int(1), every);
    assert Matching(0, Int(1), every)(item) && item in was && t.hasIndex[1];
    assert Table.StaysIf(rows, t.rows, Matching(0, Int(1), every), Location(2, 0));
  }

  /** An index that is dropped and created again over one row. */
  method CreateOnDropped(hash: Cell -> Key) returns (t: Table)
    ensures t.Sound() && t.hasIndex == [true] && !t.Valid()
  {
    var item, done;
    t, item := TableOfOne(1, hash);
    done := t.DropIndex(0);
    assert Location(2, 0) in t.rows;
    done := t.CreateIndex(0);
  }
}
