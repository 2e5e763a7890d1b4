/** What a loaded row says, as a statement that no iteration order and no column order enters:
    every rule's column holds that rule's transform of that rule's raw cell, or the raw cell itself,
    text or not, where the rule names no function. */
module RowMeaning {
  import opened Domain
  import opened RowEngine

  datatype Column = Column(name: string, path: string, columnType: string)

  const ColumnName := (c: Column) => c.name
  const ColumnPath := (c: Column) => c.path

  function ColumnOf(r: Rule): Column {
    Column(r.columnName, r.columnPath, r.columnType)
  }

  /** getColumns, for one iteration order of the rule map. */
  function Columns(order: seq<Rule>): seq<Column> { Map(ColumnOf, order) }

  function Names(columns: seq<Column>): (r: seq<string>) { Map((c: Column) => c.name, columns) }

  function Types(columns: seq<Column>): (r: seq<string>) { Map((c: Column) => c.columnType, columns) }

  ghost predicate RowMeans(rules: seq<Rule>, names: seq<string>, row: seq<Cell>, raw: string -> Cell,
      go: Interpreter) {
    && |names| == |row| == |rules| && Distinct(names)
    && (forall n <- names :: exists r <- rules :: r.columnName == n)
    && (forall r <- rules :: CellMeans(r, names, row, raw, go))
  }

  ghost predicate CellMeans(r: Rule, names: seq<string>, row: seq<Cell>, raw: string -> Cell, go: Interpreter)
    requires |names| == |row|
  {
    exists i :: 0 <= i < |names| && names[i] == r.columnName && row[i] == Applied(r, go, raw(r.columnPath))
  }

  /** Each rule's type stands at the index of its name. */
  ghost predicate TypesMatch(rules: seq<Rule>, names: seq<string>, types: seq<string>) {
    && |types| == |names|
    && forall r <- rules :: exists i :: 0 <= i < |names| && names[i] == r.columnName && types[i] == r.columnType
  }

  // ---- distinctness under permutation ----

  lemma {:induction false} OccursTwice<T>(s: seq<T>, x: T) returns (i: nat, j: nat)
    requires multiset(s)[x] >= 2
    ensures i < j < |s| && s[i] == x && s[j] == x
  {
    var n := |s| - 1;
    assert s == s[..n] + [s[n]];
    if s[n] == x {
      assert multiset(s[..n])[x] >= 1;
      i :| 0 <= i < n && s[i] == x;
      j := n;
    } else {
      i, j := OccursTwice(s[..n], x);
    }
  }

  lemma CountsTwice<T>(s: seq<T>, i: nat, j: nat)
    requires i < j < |s| && s[i] == s[j]
    ensures multiset(s)[s[i]] >= 2
  {
    assert s == s[..i] + [s[i]] + s[i + 1..j] + [s[j]] + s[j + 1..];
  }

  lemma {:induction false} DistinctSeqToSet<T>(s: seq<T>)
    requires Distinct(s)
    ensures multiset(set x <- s) == multiset(s)
  {
    if s != [] {
      var n := |s| - 1;
      DistinctSeqToSet(s[..n]);
      assert s == s[..n] + [s[n]];
      assert s[n] !in s[..n];
      assert (set x <- s) == (set x <- s[..n]) + {s[n]};
    }
  }

  lemma PermutationKeepsKeys<T(!new)>(p: seq<T>, q: seq<T>, key: T -> string)
    requires multiset(p) == multiset(q) && UniqueBy(p, key)
    ensures |p| == |q| && UniqueBy(q, key)
  {
    assert |multiset(p)| == |p| && |multiset(q)| == |q|;
    forall i, j | 0 <= i < j < |q| ensures key(q[i]) != key(q[j]) {
      if q[i] == q[j] {
        CountsTwice(q, i, j);
        var k, l := OccursTwice(p, q[i]);
      } else {
        assert q[i] in multiset(p) && q[j] in multiset(p);
        var k :| 0 <= k < |p| && p[k] == q[i];
        var l :| 0 <= l < |p| && p[l] == q[j];
      }
    }
  }

  lemma ColumnsAround(a: seq<Rule>, x: Rule, b: seq<Rule>)
    ensures multiset(Columns(a + [x] + b)) == multiset(Columns(a + b)) + multiset{ColumnOf(x)}
  {
    assert Columns(a + [x] + b) == Columns(a) + [ColumnOf(x)] + Columns(b);
    assert Columns(a + b) == Columns(a) + Columns(b);
  }

  lemma ColumnsWithout(q: seq<Rule>, k: nat)
    requires k < |q|
    ensures multiset(Columns(q)) == multiset(Columns(q[..k] + q[k + 1..])) + multiset{ColumnOf(q[k])}
  {
    hide Columns, ColumnOf;
    assert q == q[..k] + [q[k]] + q[k + 1..];
    ColumnsAround(q[..k], q[k], q[k + 1..]);
  }

  lemma {:induction false} MapPermuted(p: seq<Rule>, q: seq<Rule>)
    requires multiset(p) == multiset(q)
    ensures multiset(Columns(p)) == multiset(Columns(q))
    decreases |p|
  {
    hide Columns, ColumnOf;
    if p == [] {
      assert |multiset(q)| == |q|;
    } else {
      assert p[0] in multiset(q);
      var k :| 0 <= k < |q| && q[k] == p[0];
      RemoveSame(p, q, k);
      ColumnsWithout(p, 0);
      assert p[..0] + p[1..] == p[1..];
      ColumnsWithout(q, k);
      MapPermuted(p[1..], q[..k] + q[k + 1..]);
    }
  }

  lemma ColumnsKeepNames(rules: seq<Rule>, columns: seq<Column>)
    requires UniqueBy(rules, RuleColumn) && multiset(columns) == multiset(Columns(rules))
    ensures |columns| == |rules| && Distinct(Names(columns))
    ensures forall n <- Names(columns) :: exists r <- rules :: r.columnName == n
    ensures forall r <- rules :: exists i :: 0 <= i < |columns| && columns[i] == ColumnOf(r)
  {
    PermutationKeepsKeys(Columns(rules), columns, ColumnName);
    forall n <- Names(columns) ensures exists r <- rules :: r.columnName == n {
      var i :| 0 <= i < |columns| && columns[i].name == n;
      assert columns[i] in multiset(Columns(rules));
      var k :| 0 <= k < |rules| && ColumnOf(rules[k]) == columns[i];
      assert rules[k] in rules;
    }
    forall r <- rules ensures exists i :: 0 <= i < |columns| && columns[i] == ColumnOf(r) {
      var k :| 0 <= k < |rules| && rules[k] == r;
      assert Columns(rules)[k] == ColumnOf(r);
      assert ColumnOf(r) in multiset(columns);
    }
  }

  lemma DistinctTarget(names: seq<string>, i: nat)
    requires Distinct(names) && i < |names|
    ensures Target(names, names[i]) == i
  {
    assert names[i] in names;
  }

  /** The rule's own cell, whatever the order the transforms run in. */
  lemma CellOfRule(names: seq<string>, cells: seq<Cell>, order: seq<Rule>, go: Interpreter, r: Rule, i: nat)
    requires Distinct(names) && |cells| == |names|
    requires UniqueBy(order, RuleColumn) && r in order && i < |names| && names[i] == r.columnName
    requires forall x <- order :: Effective(x) ==> x.columnName in names
    ensures RewriteAll(names, cells, order, go)[i] == Applied(r, go, cells[i])
  {
    DistinctTarget(names, i);
    var k :| 0 <= k < |order| && order[k] == r;
    forall j | 0 <= j < |order| && j != k && Effective(order[j]) ensures Target(names, order[j].columnName) != i {
      assert order[j] in order && RuleColumn(order[j]) != RuleColumn(order[k]);
    }
    hide RewriteAll;
    if Effective(r) {
      CellOfOneRule(names, cells, order, go, k);
    } else {
      UntouchedCell(names, cells, order, go, i);
    }
  }

  /** The rules that transform find text. */
  ghost predicate WantedText(rules: seq<Rule>, raw: string -> Cell) {
    forall r <- rules :: Effective(r) ==> raw(r.columnPath).Text?
  }

  lemma ColumnTargetText(names: seq<string>, cells: seq<Cell>, r: Rule, i: nat)
    requires Distinct(names) && |cells| == |names| && i < |names| && names[i] == r.columnName
    ensures TargetText(names, cells, r) <==> (Effective(r) ==> cells[i].Text?)
  {
    DistinctTarget(names, i);
    hide Target, Effective;
  }

  /** `columns` is an arrangement of the rules' columns and `cells` their raw cells. */
  ghost predicate Arranged(rules: seq<Rule>, columns: seq<Column>, cells: seq<Cell>, raw: string -> Cell) {
    && multiset(columns) == multiset(Columns(rules)) && |cells| == |columns|
    && forall i :: 0 <= i < |cells| ==> cells[i] == raw(columns[i].path)
  }

  /** The column of a rule in an arrangement. */
  lemma PlaceOfRule(rules: seq<Rule>, columns: seq<Column>, cells: seq<Cell>, raw: string -> Cell, r: Rule)
    returns (i: nat)
    requires UniqueBy(rules, RuleColumn) && Arranged(rules, columns, cells, raw) && r in rules
    ensures i < |columns| && columns[i] == ColumnOf(r) && cells[i] == raw(r.columnPath)
    ensures |Names(columns)| == |columns| && Names(columns)[i] == r.columnName && Distinct(Names(columns))
  {
    ColumnsKeepNames(rules, columns);
    i :| 0 <= i < |columns| && columns[i] == ColumnOf(r);
  }

  lemma ArrangedFinishes(rules: seq<Rule>, columns: seq<Column>, cells: seq<Cell>, order: seq<Rule>,
                         raw: string -> Cell, go: Interpreter)
    requires UniqueBy(rules, RuleColumn) && multiset(order) == multiset(rules)
    requires Arranged(rules, columns, cells, raw) && forall r <- rules :: Resolves(r, go)
    ensures Run(Names(columns), cells, order, go).1 == if WantedText(rules, raw) then Finished else Panicked
    ensures WantedText(rules, raw) ==>
              Run(Names(columns), cells, order, go).0 == RewriteAll(Names(columns), cells, order, go)
  {
    var names := Names(columns);
    forall r | r in rules || r in order ensures r in rules && r in order {
      assert r in multiset(rules) && r in multiset(order);
    }
    RunFinishesExactly(names, cells, order, go);
    hide Run, RewriteAll, Names, Columns, TargetText, UniqueBy;
    forall r <- rules ensures TargetText(names, cells, r) <==> (Effective(r) ==> raw(r.columnPath).Text?) {
      var i := PlaceOfRule(rules, columns, cells, raw, r);
      ColumnTargetText(names, cells, r, i);
    }
  }

  lemma ArrangedNames(rules: seq<Rule>, columns: seq<Column>, cells: seq<Cell>, raw: string -> Cell)
    requires UniqueBy(rules, RuleColumn) && Arranged(rules, columns, cells, raw)
    ensures forall r <- rules :: r.columnName in Names(columns)
  {
    forall r <- rules ensures r.columnName in Names(columns) {
      var i := PlaceOfRule(rules, columns, cells, raw, r);
    }
  }

  lemma ArrangedMeans(rules: seq<Rule>, columns: seq<Column>, cells: seq<Cell>, order: seq<Rule>,
                      raw: string -> Cell, go: Interpreter)
    requires UniqueBy(rules, RuleColumn) && multiset(order) == multiset(rules) && Arranged(rules, columns, cells, raw)
    ensures RowMeans(rules, Names(columns), RewriteAll(Names(columns), cells, order, go), raw, go)
  {
    var names := Names(columns);
    ColumnsKeepNames(rules, columns);
    ArrangedNames(rules, columns, cells, raw);
    PermutationKeepsKeys(rules, order, RuleColumn);
    forall r | r in rules || r in order ensures r in rules && r in order {
      assert r in multiset(rules) && r in multiset(order);
    }
    hide RewriteAll, Names, Columns, UniqueBy, Applied;
    forall r <- rules ensures CellMeans(r, names, RewriteAll(names, cells, order, go), raw, go) {
      var i := PlaceOfRule(rules, columns, cells, raw, r);
      CellOfRule(names, cells, order, go, r, i);
    }
  }

  lemma ArrangedTypes(rules: seq<Rule>, columns: seq<Column>, cells: seq<Cell>, raw: string -> Cell)
    requires UniqueBy(rules, RuleColumn) && Arranged(rules, columns, cells, raw)
    ensures TypesMatch(rules, Names(columns), Types(columns))
  {
    forall r <- rules
      ensures exists i :: 0 <= i < |Names(columns)| && Names(columns)[i] == r.columnName
                          && Types(columns)[i] == r.columnType
    {
      var i := PlaceOfRule(rules, columns, cells, raw, r);
      assert Names(columns)[i] == r.columnName && Types(columns)[i] == r.columnType;
    }
  }

  /** Main result of the row engine. `rules` is the source's rule set; the columns are any
      arrangement of it, the raw cells any JSON values, and the transforms run in any other order.
      The run finishes exactly when the rules that transform find text, and panics otherwise; a
      finished row always says the same. */
  lemma AlignedRowMeans(rules: seq<Rule>, columns: seq<Column>, cells: seq<Cell>, order: seq<Rule>,
                        raw: string -> Cell, go: Interpreter)
    requires UniqueBy(rules, RuleColumn) && multiset(order) == multiset(rules)
    requires Arranged(rules, columns, cells, raw) && forall r <- rules :: Resolves(r, go)
    ensures Run(Names(columns), cells, order, go).1 == if WantedText(rules, raw) then Finished else Panicked
    ensures WantedText(rules, raw) ==> RowMeans(rules, Names(columns), Run(Names(columns), cells, order, go).0, raw, go)
    ensures TypesMatch(rules, Names(columns), Types(columns))
  {
    ArrangedFinishes(rules, columns, cells, order, raw, go);
    ArrangedMeans(rules, columns, cells, order, raw, go);
    ArrangedTypes(rules, columns, cells, raw);
  }

  lemma CellMeansOnce(r: Rule, names: seq<string>, a: seq<Cell>, b: seq<Cell>, raw: string -> Cell,
      go: Interpreter, i: nat)
    requires |names| == |a| == |b| && Distinct(names) && i < |names| && names[i] == r.columnName
    requires CellMeans(r, names, a, raw, go) && CellMeans(r, names, b, raw, go)
    ensures a[i] == b[i]
  {
    hide Applied;
  }

  /** The row as a map from column names to cells. */
  function AsMap(names: seq<string>, row: seq<Cell>): map<string, Cell> {
    map n | n in names && Target(names, n) < |row| :: row[Target(names, n)]
  }

  lemma CellInMap(r: Rule, names: seq<string>, row: seq<Cell>, raw: string -> Cell, go: Interpreter)
    requires |names| == |row| && Distinct(names) && CellMeans(r, names, row, raw, go)
    ensures r.columnName in AsMap(names, row)
    ensures AsMap(names, row)[r.columnName] == Applied(r, go, raw(r.columnPath))
  {
    hide Applied;
    var i :| 0 <= i < |names| && names[i] == r.columnName && row[i] == Applied(r, go, raw(r.columnPath));
    DistinctTarget(names, i);
  }

  lemma PartOfMap(rules: seq<Rule>, p: seq<string>, a: seq<Cell>, q: seq<string>, b: seq<Cell>,
                  raw: string -> Cell, go: Interpreter)
    requires RowMeans(rules, p, a, raw, go) && RowMeans(rules, q, b, raw, go)
    ensures forall n <- AsMap(p, a) :: n in AsMap(q, b) && AsMap(q, b)[n] == AsMap(p, a)[n]
  {
    hide Applied, CellMeans;
    forall n <- AsMap(p, a) ensures n in AsMap(q, b) && AsMap(q, b)[n] == AsMap(p, a)[n] {
      assert n in p;
      var r :| r in rules && r.columnName == n;
      hide AsMap;
      CellInMap(r, p, a, raw, go);
      CellInMap(r, q, b, raw, go);
    }
  }

  /** Two rows of one meaning are one map from names to cells, whatever their column orders. */
  lemma SameMeaningSameMap(rules: seq<Rule>, p: seq<string>, a: seq<Cell>, q: seq<string>, b: seq<Cell>,
                           raw: string -> Cell, go: Interpreter)
    requires RowMeans(rules, p, a, raw, go) && RowMeans(rules, q, b, raw, go)
    ensures AsMap(p, a) == AsMap(q, b)
  {
    hide AsMap;
    PartOfMap(rules, p, a, q, b, raw, go);
    PartOfMap(rules, q, b, p, a, raw, go);
    hide RowMeans;
  }

  /** A row's meaning fixes it: two rows under the same names that mean the same are equal. */
  lemma RowMeansOnce(rules: seq<Rule>, names: seq<string>, a: seq<Cell>, b: seq<Cell>, raw: string -> Cell,
      go: Interpreter)
    requires UniqueBy(rules, RuleColumn)
    requires RowMeans(rules, names, a, raw, go) && RowMeans(rules, names, b, raw, go)
    ensures a == b
  {
    hide CellMeans, Applied, UniqueBy, Distinct;
    forall i | 0 <= i < |names| ensures a[i] == b[i] {
      assert names[i] in names;
      var r :| r in rules && r.columnName == names[i];
      CellMeansOnce(r, names, a, b, raw, go, i);
    }
  }
}
