/** An XML row and its transforms: the columns come from the rules whose paths compile, while
    RunRules is handed all rules of the source. A rule without a column writes column 0. */
module XmlRows {
  import opened Domain
  import opened RowEngine
  import opened RowMeaning
  import opened Transpose

  /** The raw row of the rules that have a column. */
  function CellsOf(kept: seq<Rule>, raw: string -> string): seq<Cell> {
    Map((r: Rule) => Text(raw(r.columnPath)), kept)
  }

  /** XML values are strings. */
  function AsCells(raw: string -> string): string -> Cell {
    (path: string) => Text(raw(path))
  }

  /** The loaded row means what the rules with a column say. */
  ghost predicate RowIsRight(kept: seq<Rule>, transformOrder: seq<Rule>, raw: string -> string, go: Interpreter) {
    var names := Names(Columns(kept));
    RowMeans(kept, names, Run(names, CellsOf(kept, raw), transformOrder, go).0, AsCells(raw), go)
  }

  /** Every rule that transforms has a column. */
  ghost predicate NoWriterDropped(rules: seq<Rule>, kept: seq<Rule>) {
    forall r <- rules :: Effective(r) ==> r in kept
  }

  lemma {:induction false} CompiledIsPart(order: seq<Rule>, parses: string -> bool)
    ensures Compiled(order, parses) <= order
  {
    if order != [] && parses(order[0].columnPath) {
      CompiledIsPart(order[1..], parses);
    }
  }

  lemma KeptNames(kept: seq<Rule>)
    requires UniqueBy(kept, RuleColumn)
    ensures Distinct(Names(Columns(kept))) && |Names(Columns(kept))| == |kept|
    ensures forall i :: 0 <= i < |kept| ==> Names(Columns(kept))[i] == kept[i].columnName
    ensures forall n <- Names(Columns(kept)) :: exists r <- kept :: r.columnName == n
  {
    assert forall i :: 0 <= i < |kept| ==> kept[i] in kept;
  }

  lemma RightWithoutDroppedWriter(rules: seq<Rule>, kept: seq<Rule>, transformOrder: seq<Rule>, raw: string -> string,
                                  go: Interpreter)
    requires UniqueBy(rules, RuleColumn) && UniqueBy(kept, RuleColumn) && kept != []
    requires multiset(transformOrder) == multiset(rules) && (forall r <- kept :: r in rules)
    requires NoWriterDropped(rules, kept) && AllResolve(rules, go)
    ensures RowIsRight(kept, transformOrder, raw, go)
  {
    var names, cells := Names(Columns(kept)), CellsOf(kept, raw);
    KeptNames(kept);
    PermutationKeepsKeys(rules, transformOrder, RuleColumn);
    forall x | x in transformOrder ensures x in rules { assert x in multiset(rules); }
    TextIsEnough(names, cells, transformOrder);
    RunIsRewriteAll(names, cells, transformOrder, go);
    forall x <- transformOrder ensures Effective(x) ==> x.columnName in names {
      if Effective(x) {
        var k :| 0 <= k < |kept| && kept[k] == x;
        assert names[k] == x.columnName;
      }
    }
    hide RewriteAll, Run, Applied, Columns;
    forall r <- kept ensures CellMeans(r, names, RewriteAll(names, cells, transformOrder, go), AsCells(raw), go) {
      var i :| 0 <= i < |kept| && kept[i] == r;
      assert r in multiset(transformOrder);
      CellOfRule(names, cells, transformOrder, go, r, i);
    }
  }

  // ---- a dropped writer spoils column 0 ----

  /** Every function appends one character. */
  function Appender(rules: seq<Rule>): Interpreter {
    Interpreter(Map((r: Rule) => Function("", r.transform, ""), rules),
                (fn: Function) => Callable((s: string) => s + "x"))
  }

  lemma AppenderResolves(rules: seq<Rule>)
    ensures AllResolve(rules, Appender(rules))
    ensures forall r <- rules, s: string :: Effective(r) ==> Transform(r, Appender(rules))(s) == s + "x"
  {
    var functions := Appender(rules).functions;
    forall r <- rules ensures FindFunction(functions, r.transform).Some? {
      var k :| 0 <= k < |rules| && rules[k] == r;
      assert functions[k].name == r.transform && functions[k] in functions;
      FoundByName(functions, r.transform);
    }
  }

  predicate Writes(r: Rule, names: seq<string>, i: nat) {
    Effective(r) && Target(names, r.columnName) == i
  }

  /** How many rules write cell i. */
  function Writers(order: seq<Rule>, names: seq<string>, i: nat): nat {
    if order == [] then 0 else (if Writes(order[0], names, i) then 1 else 0) + Writers(order[1..], names, i)
  }

  lemma {:induction false} OneWriter(order: seq<Rule>, names: seq<string>, i: nat, k: nat)
    requires k < |order| && Writes(order[k], names, i)
    ensures Writers(order, names, i) >= 1
  {
    if k > 0 {
      OneWriter(order[1..], names, i, k - 1);
    }
  }

  lemma {:induction false} TwoWriters(order: seq<Rule>, names: seq<string>, i: nat, j: nat, k: nat)
    requires j < k < |order| && Writes(order[j], names, i) && Writes(order[k], names, i)
    ensures Writers(order, names, i) >= 2
  {
    if j == 0 {
      OneWriter(order[1..], names, i, k - 1);
    } else {
      TwoWriters(order[1..], names, i, j - 1, k - 1);
    }
  }

  lemma {:induction false} CellGrows(rules: seq<Rule>, names: seq<string>, record: seq<Cell>, order: seq<Rule>, i: nat)
    requires AllText(record) && i < |record| && forall r <- order :: r in rules
    ensures var cell := RewriteAll(names, record, order, Appender(rules))[i];
            cell.Text? && |cell.s| == |record[i].s| + Writers(order, names, i)
    decreases |order|
  {
    if order != [] {
      AppenderResolves(rules);
      var next := Rewrite(names, record, order[0], Appender(rules));
      assert order[0] in order;
      hide Appender, Transform;
      assert AllText(next);
      assert |next[i].s| == |record[i].s| + if Writes(order[0], names, i) then 1 else 0;
      CellGrows(rules, names, next, order[1..], i);
    }
  }

  lemma {:induction false} AbsentMeansZero(names: seq<string>, column: string)
    requires column !in names
    ensures Target(names, column) == 0
  {
    if names != [] {
      AbsentMeansZero(names[..|names| - 1], column);
    }
  }

  /** Both the rule of column 0, if it transforms, and the dropped one write cell 0. */
  lemma DroppedWritesToo(names: seq<string>, order: seq<Rule>, first: Rule, dropped: Rule)
    requires first in order && dropped in order && first != dropped && Distinct(names)
    requires names != [] && names[0] == first.columnName && dropped.columnName !in names && Effective(dropped)
    ensures Writers(order, names, 0) > if Effective(first) then 1 else 0
  {
    AbsentMeansZero(names, dropped.columnName);
    DistinctTarget(names, 0);
    var j :| 0 <= j < |order| && order[j] == first;
    var k :| 0 <= k < |order| && order[k] == dropped;
    OneWriter(order, names, 0, k);
    if Effective(first) {
      if j < k {
        TwoWriters(order, names, 0, j, k);
      } else {
        TwoWriters(order, names, 0, k, j);
      }
    }
  }

  lemma DroppedWriterSpoils(rules: seq<Rule>, kept: seq<Rule>, transformOrder: seq<Rule>, dropped: Rule)
    requires UniqueBy(rules, RuleColumn) && UniqueBy(kept, RuleColumn) && kept != []
    requires multiset(transformOrder) == multiset(rules) && (forall r <- kept :: r in rules)
    requires dropped in rules && Effective(dropped) && dropped !in kept
    ensures AllResolve(rules, Appender(rules))
    ensures !RowIsRight(kept, transformOrder, (path: string) => "", Appender(rules))
  {
    var raw, go := (path: string) => "", Appender(rules);
    var names, cells := Names(Columns(kept)), CellsOf(kept, raw);
    KeptNames(kept);
    AppenderResolves(rules);
    forall x | x in transformOrder ensures x in rules { assert x in multiset(rules); }
    DroppedHasNoColumn(rules, kept, dropped);
    assert kept[0] in kept && kept[0] in multiset(transformOrder) && dropped in multiset(transformOrder);
    TextIsEnough(names, cells, transformOrder);
    RunIsRewriteAll(names, cells, transformOrder, go);
    CellGrows(rules, names, cells, transformOrder, 0);
    DroppedWritesToo(names, transformOrder, kept[0], dropped);
    hide RewriteAll, Run, Appender, Columns, Writers;
    assert |Applied(kept[0], go, Text("")).s| == if Effective(kept[0]) then 1 else 0;
    assert !CellMeans(kept[0], names, RewriteAll(names, cells, transformOrder, go), AsCells(raw), go);
  }

  lemma DroppedHasNoColumn(rules: seq<Rule>, kept: seq<Rule>, dropped: Rule)
    requires UniqueBy(rules, RuleColumn) && (forall r <- kept :: r in rules) && dropped in rules && dropped !in kept
    requires UniqueBy(kept, RuleColumn)
    ensures dropped.columnName !in Names(Columns(kept))
  {
    KeptNames(kept);
    if r :| r in kept && r.columnName == dropped.columnName {
      SameColumnSameRule(rules, r, dropped);
    }
  }

  lemma SameColumnSameRule(rules: seq<Rule>, a: Rule, b: Rule)
    requires UniqueBy(rules, RuleColumn) && a in rules && b in rules && a.columnName == b.columnName
    ensures a == b
  {
    var j :| 0 <= j < |rules| && rules[j] == a;
    var k :| 0 <= k < |rules| && rules[k] == b;
    assert RuleColumn(rules[j]) == RuleColumn(rules[k]);
  }

  lemma KeptFacts(rules: seq<Rule>, order: seq<Rule>, parses: string -> bool)
    requires UniqueBy(rules, RuleColumn) && multiset(order) == multiset(rules)
    ensures forall r <- Compiled(order, parses) :: r in rules
    ensures UniqueBy(Compiled(order, parses), RuleColumn)
  {
    CompiledIsPart(order, parses);
    PermutationKeepsKeys(rules, order, RuleColumn);
    forall r <- Compiled(order, parses) ensures r in rules {
      assert r in order && r in multiset(rules);
    }
  }

  /** The exact condition: for all data and all functions, an XML row means what its columns' rules
      say if and only if no rule that transforms lost its column to a path that does not compile. */
  lemma XmlRowIsRightExactly(rules: seq<Rule>, order: seq<Rule>, parses: string -> bool, transformOrder: seq<Rule>)
    requires UniqueBy(rules, RuleColumn)
    requires multiset(order) == multiset(rules) && multiset(transformOrder) == multiset(rules)
    requires Compiled(order, parses) != []
    ensures var kept := Compiled(order, parses);
            (forall raw: string -> string, go: Interpreter | AllResolve(rules, go) ::
               RowIsRight(kept, transformOrder, raw, go))
            <==> NoWriterDropped(rules, kept)
  {
    var kept := Compiled(order, parses);
    KeptFacts(rules, order, parses);
    hide Compiled, RowIsRight, AllResolve, UniqueBy, Effective;
    if NoWriterDropped(rules, kept) {
      forall raw: string -> string, go: Interpreter | AllResolve(rules, go)
        ensures RowIsRight(kept, transformOrder, raw, go)
      {
        RightWithoutDroppedWriter(rules, kept, transformOrder, raw, go);
      }
    } else {
      var dropped :| dropped in rules && Effective(dropped) && dropped !in kept;
      DroppedWriterSpoils(rules, kept, transformOrder, dropped);
    }
  }
}
