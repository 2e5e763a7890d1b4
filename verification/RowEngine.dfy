/** RunRules: the transforms of an extract source, applied in place to one row. The rules come
    out of a Go map, so every statement here is for an arbitrary iteration order. */
module RowEngine {
  import opened Wrappers
  import opened Domain

  /** A cell of a row: nil, a string, or another JSON value. */
  datatype Cell = Null | Text(s: string) | Other(n: int)

  /** What the Go interpreter makes of a transform function. */
  datatype Interpreted = Callable(f: string -> string) | EvalFails | NotAStringFunction

  datatype Interpreter = Interpreter(functions: seq<Function>, eval: Function -> Interpreted)

  datatype Outcome = Finished | Failed | Panicked

  predicate Effective(r: Rule) {
    r.transform != "" && r.transform != "None"
  }

  /** The column scan has no break and starts from index 0, so the last match wins and a column
      that is not there at all stands for index 0. */
  function Target(names: seq<string>, column: string): (t: nat)
    ensures column in names ==> t < |names| && names[t] == column
    ensures names != [] ==> t < |names|
  {
    if names == [] then 0
    else if names[|names| - 1] == column then |names| - 1
    else Target(names[..|names| - 1], column)
  }

  lemma {:induction false} TargetIsLast(names: seq<string>, column: string, t: nat)
    requires if column in names then t < |names| && names[t] == column else t == 0
    requires forall j :: t < j < |names| ==> names[j] != column
    ensures Target(names, column) == t
  {
    if names != [] {
      var n := |names| - 1;
      assert names == names[..n] + [names[n]];
      if names[n] != column {
        TargetIsLast(names[..n], column, t);
      }
    }
  }

  function FindFunction(functions: seq<Function>, name: string): Option<Function> {
    if functions == [] then None
    else if functions[0].name == name then Some(functions[0])
    else FindFunction(functions[1..], name)
  }

  /** The log line asserts a string in every matching column it passes. */
  predicate ScanPanics(names: seq<string>, record: seq<Cell>, column: string) {
    exists i :: 0 <= i < |names| && names[i] == column && (i >= |record| || !record[i].Text?)
  }

  function Step(names: seq<string>, record: seq<Cell>, r: Rule, go: Interpreter): (result: (seq<Cell>, Outcome))
    ensures |result.0| == |record|
  {
    if !Effective(r) then (record, Finished)
    else if ScanPanics(names, record, r.columnName) then (record, Panicked)
    else match FindFunction(go.functions, r.transform)
      case None => (record, Failed)
      case Some(fn) =>
        match go.eval(fn)
        case EvalFails => (record, Failed)
        case NotAStringFunction => (record, Panicked)
        case Callable(f) =>
          var t := Target(names, r.columnName);
          if t >= |record| || !record[t].Text? then (record, Panicked)
          else (record[t := Text(f(record[t].s))], Finished)
  }

  /** The first failure ends the loop and leaves the row as it is then. */
  function Run(names: seq<string>, record: seq<Cell>, order: seq<Rule>, go: Interpreter): (result: (seq<Cell>, Outcome))
    ensures |result.0| == |record|
    decreases |order|
  {
    if order == [] then (record, Finished)
    else
      var (next, outcome) := Step(names, record, order[0], go);
      if outcome.Finished? then Run(names, next, order[1..], go) else (next, outcome)
  }

  /** getTransformFunction: the first function of the name. */
  method LookUp(functions: seq<Function>, name: string) returns (fn: Option<Function>)
    ensures fn.None? ==> forall j :: 0 <= j < |functions| ==> functions[j].name != name
    ensures fn.Some? ==> exists i :: 0 <= i < |functions| && functions[i] == fn.value && fn.value.name == name
                                     && forall j :: 0 <= j < i ==> functions[j].name != name
    ensures fn == FindFunction(functions, name)
  {
    var i := 0;
    while i < |functions|
      invariant i <= |functions|
      invariant forall j :: 0 <= j < i ==> functions[j].name != name
      invariant FindFunction(functions, name) == FindFunction(functions[i..], name)
    {
      if functions[i].name == name {
        return Some(functions[i]);
      }
      i := i + 1;
    }
    return None;
  }

  method FindColumn(names: seq<string>, record: array<Cell>, column: string) returns (index: nat, panicked: bool)
    ensures panicked <==> exists i :: 0 <= i < |names| && names[i] == column && (i >= record.Length || !record[i].Text?)
    ensures !panicked && column in names ==> index < |names| && names[index] == column
    ensures !panicked ==> forall j :: index < j < |names| ==> names[j] != column
    ensures !panicked && column !in names ==> index == 0
    ensures panicked <==> ScanPanics(names, record[..], column)
    ensures !panicked ==> index == Target(names, column)
  {
    index, panicked := 0, false;
    var i := 0;
    while i < |names|
      invariant i <= |names|
      invariant if column in names[..i] then index < i && names[index] == column else index == 0
      invariant forall j :: index < j < i ==> names[j] != column
      invariant index == Target(names[..i], column)
      invariant forall k :: 0 <= k < i && names[k] == column ==> k < record.Length && record[k].Text?
    {
      assert names[..i + 1][..i] == names[..i];
      if names[i] == column {
        if i >= record.Length || !record[i].Text? {
          return index, true;
        }
        index := i;
      }
      i := i + 1;
    }
    assert names[..i] == names;
  }

  method RunRules(names: seq<string>, record: array<Cell>, order: seq<Rule>, go: Interpreter) returns (outcome: Outcome)
    modifies record
    ensures (record[..], outcome) == Run(names, old(record[..]), order, go)
  {
    var k := 0;
    while k < |order|
      invariant k <= |order|
      invariant Run(names, old(record[..]), order, go) == Run(names, record[..], order[k..], go)
    {
      var rule := order[k];
      assert order[k..][0] == rule && order[k..][1..] == order[k + 1..];
      if rule.transform != "" && rule.transform != "None" {
        var index, panicked := FindColumn(names, record, rule.columnName);
        if panicked {
          return Panicked;
        }
        var fn := LookUp(go.functions, rule.transform);
        if fn.None? || go.eval(fn.value).EvalFails? {
          return Failed;
        }
        if go.eval(fn.value).NotAStringFunction? || index >= record.Length || !record[index].Text? {
          return Panicked;
        }
        ghost var was := record[..];
        record[index] := Text(go.eval(fn.value).f(record[index].s));
        assert record[..] == was[index := record[index]];
      }
      k := k + 1;
    }
    outcome := Finished;
  }

  // ---- runs, case by case ----

  lemma {:induction false} FoundFirst(functions: seq<Function>, name: string, k: nat)
    requires k <= |functions| && (k < |functions| ==> functions[k].name == name)
    requires forall j :: 0 <= j < k ==> functions[j].name != name
    ensures FindFunction(functions, name) == if k < |functions| then Some(functions[k]) else None
  {
    if k > 0 {
      FoundFirst(functions[1..], name, k - 1);
    }
  }

  /** One rule on any row, k being the first function of its name and t the last column of its. No
      name, or "None", does nothing. A column that is there but holds no text panics before the
      function is looked up; then an unknown function or one that does not evaluate fails; one that
      is no string function panics; and so does a column that is not there, if cell 0 holds no text. */
  lemma RunOfOneRule(names: seq<string>, record: seq<Cell>, r: Rule, go: Interpreter, k: nat, t: nat)
    requires k <= |go.functions| && (k < |go.functions| ==> go.functions[k].name == r.transform)
    requires forall j :: 0 <= j < k ==> go.functions[j].name != r.transform
    requires if r.columnName in names then t < |names| && names[t] == r.columnName else t == 0
    requires forall j :: t < j < |names| ==> names[j] != r.columnName
    ensures Run(names, record, [r], go)
            == if r.transform == "" || r.transform == "None" then (record, Finished)
               else if exists i :: 0 <= i < |names| && names[i] == r.columnName && (i >= |record| || !record[i].Text?)
                 then (record, Panicked)
               else if k == |go.functions| then (record, Failed)
               else match go.eval(go.functions[k])
                    case EvalFails => (record, Failed)
                    case NotAStringFunction => (record, Panicked)
                    case Callable(f) =>
                      if t < |record| && record[t].Text? then (record[t := Text(f(record[t].s))], Finished)
                      else (record, Panicked)
  {
    FoundFirst(go.functions, r.transform, k);
    TargetIsLast(names, r.columnName, t);
    hide FindFunction, Target;
    assert [r][1..] == [];
    assert "None" != "";
  }

  /** The rules run one behind the other, and the first that does not finish ends the run. */
  lemma RunOfMoreRules(names: seq<string>, record: seq<Cell>, r: Rule, rest: seq<Rule>, go: Interpreter)
    ensures var first := Run(names, record, [r], go);
            Run(names, record, [r] + rest, go) == if first.1.Finished? then Run(names, first.0, rest, go) else first
  {
    hide Step;
    assert ([r] + rest)[1..] == rest && [r][1..] == [];
  }

  // ---- the meaning of a run in which every named function resolves ----

  /** The transform a rule stands for; the identity when it names none. */
  function Transform(r: Rule, go: Interpreter): string -> string {
    var fn := FindFunction(go.functions, r.transform);
    if Effective(r) && fn.Some? && go.eval(fn.value).Callable? then go.eval(fn.value).f else (s: string) => s
  }

  predicate Resolves(r: Rule, go: Interpreter) {
    Effective(r) ==>
      var fn := FindFunction(go.functions, r.transform);
      fn.Some? && go.eval(fn.value).Callable?
  }

  ghost predicate AllText(record: seq<Cell>) {
    forall i :: 0 <= i < |record| ==> record[i].Text?
  }

  /** The cells that the engine asserts to be strings on behalf of a rule: every one of its column,
      and its target. */
  predicate TargetText(names: seq<string>, record: seq<Cell>, r: Rule) {
    Effective(r) ==>
      && !ScanPanics(names, record, r.columnName)
      && Target(names, r.columnName) < |record| && record[Target(names, r.columnName)].Text?
  }

  ghost predicate TargetsText(names: seq<string>, record: seq<Cell>, rules: seq<Rule>) {
    forall r <- rules :: TargetText(names, record, r)
  }

  /** What a rule makes of its cell. */
  function Applied(r: Rule, go: Interpreter, cell: Cell): (v: Cell)
    ensures v.Text? <==> cell.Text?
  {
    if Effective(r) && cell.Text? then Text(Transform(r, go)(cell.s)) else cell
  }

  /** A rule as a rewriting of a row. */
  function Rewrite(names: seq<string>, record: seq<Cell>, r: Rule, go: Interpreter): (next: seq<Cell>)
    ensures |next| == |record|
  {
    var t := Target(names, r.columnName);
    if Effective(r) && t < |record| then record[t := Applied(r, go, record[t])] else record
  }

  function RewriteAll(names: seq<string>, record: seq<Cell>, order: seq<Rule>, go: Interpreter): (next: seq<Cell>)
    ensures |next| == |record|
    decreases |order|
  {
    if order == [] then record else RewriteAll(names, Rewrite(names, record, order[0], go), order[1..], go)
  }

  /** A rewriting leaves text where text was, and nowhere else. */
  lemma RewriteKeepsTexts(names: seq<string>, record: seq<Cell>, r: Rule, go: Interpreter, x: Rule)
    ensures TargetText(names, Rewrite(names, record, r, go), x) <==> TargetText(names, record, x)
  {
    hide Applied, Target, Effective;
    var next := Rewrite(names, record, r, go);
    assert forall i :: 0 <= i < |record| ==> (next[i].Text? <==> record[i].Text?);
    assert ScanPanics(names, next, x.columnName) <==> ScanPanics(names, record, x.columnName);
  }

  /** The rule can be applied: its function is there, and so is the text it wants. */
  predicate Proceeds(names: seq<string>, record: seq<Cell>, r: Rule, go: Interpreter) {
    Resolves(r, go) && TargetText(names, record, r)
  }

  lemma StepProceeds(names: seq<string>, record: seq<Cell>, r: Rule, go: Interpreter)
    ensures Proceeds(names, record, r, go) ==>
              Step(names, record, r, go) == (Rewrite(names, record, r, go), Finished)
    ensures !Proceeds(names, record, r, go) ==>
              Step(names, record, r, go) == (record, StopKind(names, record, r, go))
  {
    hide Target, ScanPanics;
  }

  /** How a run ends at a rule that cannot be applied: with an error if, before anything else, the
      function is not found or its source does not evaluate, and with a panic otherwise. */
  function StopKind(names: seq<string>, record: seq<Cell>, r: Rule, go: Interpreter): Outcome {
    var fn := FindFunction(go.functions, r.transform);
    if !ScanPanics(names, record, r.columnName) && (fn.None? || go.eval(fn.value).EvalFails?) then Failed else Panicked
  }

  /** Every run, on every row: it ends at the first rule that cannot be applied, with the rules
      before it done and none behind it. */
  lemma {:induction false} RunStopsAt(names: seq<string>, record: seq<Cell>, order: seq<Rule>, go: Interpreter)
    returns (k: nat)
    ensures k <= |order| && forall j :: 0 <= j < k ==> Proceeds(names, record, order[j], go)
    ensures k < |order| ==> !Proceeds(names, record, order[k], go)
    ensures Run(names, record, order, go)
            == (RewriteAll(names, record, order[..k], go),
                if k == |order| then Finished else StopKind(names, record, order[k], go))
    decreases |order|
  {
    k := 0;
    if order != [] {
      hide Step, Rewrite, Proceeds, StopKind;
      StepProceeds(names, record, order[0], go);
      if Proceeds(names, record, order[0], go) {
        var next := Rewrite(names, record, order[0], go);
        var rest := RunStopsAt(names, next, order[1..], go);
        k := rest + 1;
        assert order[..k][1..] == order[1..][..rest];
        forall j | 0 < j < |order|
          ensures Proceeds(names, record, order[j], go) <==> Proceeds(names, next, order[1..][j - 1], go)
          ensures StopKind(names, record, order[j], go) == StopKind(names, next, order[1..][j - 1], go)
        {
          RewriteKeepsStop(names, record, order[0], go, order[j]);
        }
      } else {
        assert order[..0] == [];
      }
    }
  }

  lemma RewriteKeepsStop(names: seq<string>, record: seq<Cell>, r: Rule, go: Interpreter, x: Rule)
    ensures Proceeds(names, Rewrite(names, record, r, go), x, go) <==> Proceeds(names, record, x, go)
    ensures StopKind(names, Rewrite(names, record, r, go), x, go) == StopKind(names, record, x, go)
  {
    RewriteKeepsTexts(names, record, r, go, x);
    hide Applied, Target, Effective;
    var next := Rewrite(names, record, r, go);
    assert forall i :: 0 <= i < |record| ==> (next[i].Text? <==> record[i].Text?);
  }

  /** Exactly when a run ends well, and how it ends otherwise: with all names resolved a run
      finishes if and only if every transformed column holds text, and panics if not. */
  lemma RunFinishesExactly(names: seq<string>, record: seq<Cell>, order: seq<Rule>, go: Interpreter)
    ensures Run(names, record, order, go).1.Finished? <==> forall r <- order :: Proceeds(names, record, r, go)
    ensures Run(names, record, order, go).1.Finished? ==>
              Run(names, record, order, go).0 == RewriteAll(names, record, order, go)
    ensures (forall r <- order :: Resolves(r, go)) ==>
              && (Run(names, record, order, go).1.Finished? <==> TargetsText(names, record, order))
              && !Run(names, record, order, go).1.Failed?
  {
    var k := RunStopsAt(names, record, order, go);
    assert order[..|order|] == order;
    hide Run, RewriteAll, TargetText;
    if k < |order| {
      assert order[k] in order;
    }
  }

  /** With all names resolved and text where it is wanted, a run is a plain sequence of rewritings. */
  lemma RunIsRewriteAll(names: seq<string>, record: seq<Cell>, order: seq<Rule>, go: Interpreter)
    requires TargetsText(names, record, order) && forall r <- order :: Resolves(r, go)
    ensures Run(names, record, order, go) == (RewriteAll(names, record, order, go), Finished)
  {
    RunFinishesExactly(names, record, order, go);
  }

  lemma TextIsEnough(names: seq<string>, record: seq<Cell>, rules: seq<Rule>)
    requires AllText(record) && |record| == |names| && names != []
    ensures TargetsText(names, record, rules)
  {
  }

  // ---- order independence, exactly ----

  /** Two rules that write one cell must name one function. */
  predicate Compatible(names: seq<string>, a: Rule, b: Rule) {
    Effective(a) && Effective(b) && Target(names, a.columnName) == Target(names, b.columnName)
    ==> a.transform == b.transform
  }

  predicate AllCompatible(names: seq<string>, rules: seq<Rule>) {
    forall a <- rules, b <- rules :: Compatible(names, a, b)
  }

  lemma Commute(names: seq<string>, record: seq<Cell>, a: Rule, b: Rule, go: Interpreter)
    requires Compatible(names, a, b)
    ensures Rewrite(names, Rewrite(names, record, a, go), b, go) == Rewrite(names, Rewrite(names, record, b, go), a, go)
  {
  }

  lemma {:induction false} RewriteAllAppend(names: seq<string>, record: seq<Cell>, a: seq<Rule>, b: seq<Rule>,
      go: Interpreter)
    ensures RewriteAll(names, record, a + b, go) == RewriteAll(names, RewriteAll(names, record, a, go), b, go)
    decreases |a|
  {
    if a == [] {
      assert a + b == b;
    } else {
      assert (a + b)[1..] == a[1..] + b;
      RewriteAllAppend(names, Rewrite(names, record, a[0], go), a[1..], b, go);
    }
  }

  /** A rule may be brought to the front past compatible ones. */
  lemma {:induction false} MoveToFront(names: seq<string>, record: seq<Cell>, pre: seq<Rule>, r: Rule, go: Interpreter)
    requires forall x <- pre :: Compatible(names, x, r)
    ensures RewriteAll(names, record, pre + [r], go) == RewriteAll(names, Rewrite(names, record, r, go), pre, go)
    decreases |pre|
  {
    if pre == [] {
      assert pre + [r] == [r] && [r][1..] == [];
    } else {
      assert (pre + [r])[1..] == pre[1..] + [r];
      MoveToFront(names, Rewrite(names, record, pre[0], go), pre[1..], r, go);
      Commute(names, record, pre[0], r, go);
    }
  }

  lemma RemoveSame<T>(p: seq<T>, q: seq<T>, k: nat)
    requires multiset(p) == multiset(q) && k < |q| && p != [] && p[0] == q[k]
    ensures multiset(p[1..]) == multiset(q[..k] + q[k + 1..])
  {
    assert p == [p[0]] + p[1..];
    assert q == q[..k] + [q[k]] + q[k + 1..];
    assert multiset(p[1..]) == multiset(p) - multiset{p[0]};
    assert multiset(q[..k] + q[k + 1..]) == multiset(q) - multiset{q[k]};
  }

  lemma {:induction false} PermutationsAgree(names: seq<string>, record: seq<Cell>, p: seq<Rule>, q: seq<Rule>,
      go: Interpreter)
    requires multiset(p) == multiset(q) && AllCompatible(names, p)
    ensures RewriteAll(names, record, p, go) == RewriteAll(names, record, q, go)
    decreases |p|
  {
    if p == [] {
      assert |multiset(p)| == |p| && |multiset(q)| == |q|;
    } else {
      var r := p[0];
      assert r in multiset(q);
      var k :| 0 <= k < |q| && q[k] == r;
      var rest := q[..k] + q[k + 1..];
      RemoveSame(p, q, k);
      assert q == q[..k] + [r] + q[k + 1..];
      forall x | x in q ensures x in p { assert x in multiset(p); }
      RewriteAllAppend(names, record, q[..k] + [r], q[k + 1..], go);
      MoveToFront(names, record, q[..k], r, go);
      RewriteAllAppend(names, Rewrite(names, record, r, go), q[..k], q[k + 1..], go);
      PermutationsAgree(names, Rewrite(names, record, r, go), p[1..], rest, go);
    }
  }

  /** Compatible rules end alike in every iteration order, on any row, and whenever they finish, in
      one and the same row. */
  lemma RunIsOrderFree(names: seq<string>, record: seq<Cell>, p: seq<Rule>, q: seq<Rule>, go: Interpreter)
    requires multiset(p) == multiset(q) && AllCompatible(names, p)
    requires forall r <- p :: Resolves(r, go)
    ensures Run(names, record, p, go).1 == Run(names, record, q, go).1
    ensures Run(names, record, p, go).1.Finished? ==> Run(names, record, p, go) == Run(names, record, q, go)
    ensures Run(names, record, p, go).1.Finished? <==> TargetsText(names, record, p)
  {
    forall r | r in p || r in q ensures r in p && r in q {
      assert r in multiset(p) && r in multiset(q);
    }
    RunFinishesExactly(names, record, p, go);
    RunFinishesExactly(names, record, q, go);
    PermutationsAgree(names, record, p, q, go);
    hide Run, RewriteAll, AllCompatible, TargetText;
  }

  /** Every function is constant, with its own name as the value. */
  function NameTellers(functions: seq<Function>): Interpreter {
    Interpreter(functions, (fn: Function) => Callable((s: string) => fn.name))
  }

  lemma FoundByName(functions: seq<Function>, name: string)
    requires exists fn <- functions :: fn.name == name
    ensures FindFunction(functions, name).Some? && FindFunction(functions, name).value.name == name
  {
  }

  lemma {:induction false} TextsStay(names: seq<string>, record: seq<Cell>, order: seq<Rule>, go: Interpreter, x: Rule)
    ensures TargetText(names, RewriteAll(names, record, order, go), x) <==> TargetText(names, record, x)
    decreases |order|
  {
    hide TargetText, Rewrite;
    if order != [] {
      RewriteKeepsTexts(names, record, order[0], go, x);
      TextsStay(names, Rewrite(names, record, order[0], go), order[1..], go, x);
    }
  }

  /** The last rule of an order leaves its function's value in its cell. */
  lemma LastRuleWins(names: seq<string>, record: seq<Cell>, pre: seq<Rule>, r: Rule, functions: seq<Function>)
    requires TargetsText(names, record, pre + [r])
    requires forall x <- pre + [r] :: Effective(x) ==> exists fn <- functions :: fn.name == x.transform
    requires Effective(r)
    ensures Target(names, r.columnName) < |record|
    ensures Run(names, record, pre + [r], NameTellers(functions)).0[Target(names, r.columnName)] == Text(r.transform)
  {
    var go := NameTellers(functions);
    TellersResolve(functions, pre + [r]);
    assert r in pre + [r] && TargetText(names, record, r);
    RunIsRewriteAll(names, record, pre + [r], go);
    RewriteAllAppend(names, record, pre, [r], go);
    TextsStay(names, record, pre, go, r);
    var before := RewriteAll(names, record, pre, go);
    hide Target, NameTellers, Run, TargetsText;
    assert RewriteAll(names, before, [r], go) == Rewrite(names, before, r, go) by {
      assert [r][1..] == [];
    }
    hide RewriteAll;
    TellerTells(functions, r, before[Target(names, r.columnName)]);
  }

  lemma TellersResolve(functions: seq<Function>, rules: seq<Rule>)
    requires forall x <- rules :: Effective(x) ==> exists fn <- functions :: fn.name == x.transform
    ensures forall x <- rules :: Resolves(x, NameTellers(functions))
  {
    forall x <- rules ensures Resolves(x, NameTellers(functions)) {
      if Effective(x) { FoundByName(functions, x.transform); }
    }
  }

  lemma TellerTells(functions: seq<Function>, r: Rule, cell: Cell)
    requires Effective(r) && cell.Text? && Resolves(r, NameTellers(functions))
    ensures Applied(r, NameTellers(functions), cell) == Text(r.transform)
  {
    FoundName(functions, r.transform);
  }

  lemma {:induction false} FoundName(functions: seq<Function>, name: string)
    ensures FindFunction(functions, name).Some? ==> FindFunction(functions, name).value.name == name
  {
    if functions != [] {
      FoundName(functions[1..], name);
    }
  }

  /** The condition is exact: as soon as two rules write one cell through two functions there
      are function bodies, and two orders of the same rules, that end in different rows. */
  lemma IncompatibleRulesDependOnOrder(names: seq<string>, record: seq<Cell>, order: seq<Rule>,
      functions: seq<Function>)
    returns (p: seq<Rule>, q: seq<Rule>)
    requires TargetsText(names, record, order)
    requires forall x <- order :: Effective(x) ==> exists fn <- functions :: fn.name == x.transform
    requires !AllCompatible(names, order)
    ensures multiset(p) == multiset(order) == multiset(q)
    ensures Run(names, record, p, NameTellers(functions)) != Run(names, record, q, NameTellers(functions))
  {
    hide Effective, Target, TargetText;
    var a, b :| a in order && b in order && !Compatible(names, a, b);
    var i :| 0 <= i < |order| && order[i] == a;
    var j :| 0 <= j < |order| && order[j] == b;
    p := MoveToEnd(order, i);
    q := MoveToEnd(order, j);
    forall x <- p ensures x in order { assert x in multiset(order); }
    forall x <- q ensures x in order { assert x in multiset(order); }
    assert p == p[..|p| - 1] + [a] && q == q[..|q| - 1] + [b];
    hide Run, NameTellers;
    LastRuleWins(names, record, p[..|p| - 1], a, functions);
    LastRuleWins(names, record, q[..|q| - 1], b, functions);
  }

  lemma MoveToEnd(order: seq<Rule>, i: nat) returns (p: seq<Rule>)
    requires i < |order|
    ensures multiset(p) == multiset(order) && p != [] && p[|p| - 1] == order[i]
  {
    p := order[..i] + order[i + 1..] + [order[i]];
    assert order == order[..i] + [order[i]] + order[i + 1..];
  }

  // ---- what a single cell ends up with ----

  lemma {:induction false} UntouchedCell(names: seq<string>, record: seq<Cell>, order: seq<Rule>, go: Interpreter,
      i: nat)
    requires i < |record|
    requires forall r <- order :: Effective(r) ==> Target(names, r.columnName) != i
    ensures RewriteAll(names, record, order, go)[i] == record[i]
    decreases |order|
  {
    if order != [] {
      UntouchedCell(names, Rewrite(names, record, order[0], go), order[1..], go, i);
    }
  }

  lemma {:induction false} CellOfOneRule(names: seq<string>, record: seq<Cell>, order: seq<Rule>, go: Interpreter,
      k: nat)
    requires k < |order| && Effective(order[k])
    requires Target(names, order[k].columnName) < |record|
    requires forall j :: 0 <= j < |order| && j != k && Effective(order[j]) ==>
               Target(names, order[j].columnName) != Target(names, order[k].columnName)
    ensures var t := Target(names, order[k].columnName);
            RewriteAll(names, record, order, go)[t] == Applied(order[k], go, record[t])
    decreases |order|
  {
    var t := Target(names, order[k].columnName);
    var next := Rewrite(names, record, order[0], go);
    if k == 0 {
      forall r <- order[1..] | Effective(r) ensures Target(names, r.columnName) != t {
        var j :| 0 <= j < |order[1..]| && order[1..][j] == r;
        assert order[j + 1] == r;
      }
      UntouchedCell(names, next, order[1..], go, t);
    } else {
      assert next[t] == record[t];
      CellOfOneRule(names, next, order[1..], go, k - 1);
    }
  }

  /** With distinct column names, present for every rule that transforms, a run that finishes leaves
      in every cell its own rule's transform of the text that was there, and cells without an
      effective rule untouched, whatever they hold. */
  lemma RunMeaning(names: seq<string>, record: seq<Cell>, order: seq<Rule>, go: Interpreter, i: nat)
    requires |record| == |names| && i < |names|
    requires forall r <- order :: Resolves(r, go) && (Effective(r) ==> r.columnName in names)
    requires UniqueBy(order, RuleColumn)
    ensures Run(names, record, order, go).1 == if TargetsText(names, record, order) then Finished else Panicked
    ensures var cell := Run(names, record, order, go).0[i];
            Run(names, record, order, go).1.Finished? ==>
              if exists r <- order :: Effective(r) && Target(names, r.columnName) == i then
                exists r <- order :: Effective(r) && Target(names, r.columnName) == i
                                     && record[i].Text? && cell == Text(Transform(r, go)(record[i].s))
              else cell == record[i]
  {
    RunFinishesExactly(names, record, order, go);
    hide Run, RewriteAll, Transform;
    if exists k :: 0 <= k < |order| && Effective(order[k]) && Target(names, order[k].columnName) == i {
      var k :| 0 <= k < |order| && Effective(order[k]) && Target(names, order[k].columnName) == i;
      DistinctTargets(names, order, k);
      CellOfOneRule(names, record, order, go, k);
      assert order[k] in order;
    } else {
      UntouchedCell(names, record, order, go, i);
    }
  }

  lemma DistinctTargets(names: seq<string>, order: seq<Rule>, k: nat)
    requires k < |order| && Effective(order[k]) && UniqueBy(order, RuleColumn)
    requires forall r <- order :: Effective(r) ==> r.columnName in names
    ensures forall j :: 0 <= j < |order| && j != k && Effective(order[j]) ==>
              Target(names, order[j].columnName) != Target(names, order[k].columnName)
  {
    forall j | 0 <= j < |order| && j != k && Effective(order[j])
      ensures Target(names, order[j].columnName) != Target(names, order[k].columnName)
    {
      assert order[j] in order && order[k] in order && RuleColumn(order[j]) != RuleColumn(order[k]);
    }
  }
}
