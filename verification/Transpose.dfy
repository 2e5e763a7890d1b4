/** XML, JSONPath, API and HTTP-post extraction: one column of values per rule, turned into rows. */
module Transpose {
  import opened Domain
  import SpliceDelete
  import opened RowEngine
  import opened RowMeaning

  type Table = seq<seq<Cell>>

  ghost predicate IsTransposed(cols: Table, height: nat, rows: Table) {
    && |rows| == height
    && forall r :: 0 <= r < height ==>
         |rows[r]| == |cols| && forall c :: 0 <= c < |cols| ==> r < |cols[c]| && rows[r][c] == cols[c][r]
  }

  /** The nested row loops, for a row count taken from one of the columns. `safe` is false where
      Go would panic on an index out of range. */
  method BuildRows(cols: Table, height: nat) returns (rows: Table, safe: bool)
    ensures safe <==> height == 0 || forall c :: 0 <= c < |cols| ==> height <= |cols[c]|
    ensures safe ==> IsTransposed(cols, height, rows)
  {
    rows := [];
    var rec := 0;
    while rec < height
      invariant rec <= height && IsTransposed(cols, rec, rows)
    {
      var row: seq<Cell> := [];
      var c := 0;
      while c < |cols|
        invariant c <= |cols| && |row| == c
        invariant forall k :: 0 <= k < c ==> rec < |cols[k]| && row[k] == cols[k][rec]
      {
        if rec >= |cols[c]| {
          return rows, false;
        }
        row := row + [cols[c][rec]];
        c := c + 1;
      }
      rows := rows + [row];
      rec := rec + 1;
    }
    assert height > 0 ==> |rows[height - 1]| == |cols|;
    safe := true;
  }

  /** One column of values per rule. */
  function Queried(rules: seq<Rule>, query: string -> seq<Cell>): (cols: Table)
    ensures |cols| == |rules| && forall i :: 0 <= i < |rules| ==> cols[i] == query(rules[i].columnPath)
  {
    Map((r: Rule) => query(r.columnPath), rules)
  }

  lemma QueriedAppend(rules: seq<Rule>, r: Rule, query: string -> seq<Cell>)
    ensures Queried(rules + [r], query) == Queried(rules, query) + [query(r.columnPath)]
    ensures Columns(rules + [r]) == Columns(rules) + [ColumnOf(r)]
    ensures JsonHeight(Queried(rules + [r], query)) == |query(r.columnPath)|
  {
  }

  ghost predicate Rectangular(cols: Table, height: nat) {
    forall c :: 0 <= c < |cols| ==> |cols[c]| == height
  }

  /** Row counts: XML takes the first column's length, JSONPath and the API the last one's. */
  function XmlHeight(cols: Table): nat { if cols == [] then 0 else |cols[0]| }

  function JsonHeight(cols: Table): nat { if cols == [] then 0 else |cols[|cols| - 1]| }

  /** getXMLFormat for one iteration order of the rules; every XML column has type TEXT. */
  method XmlFormat(order: seq<Rule>, query: string -> seq<Cell>)
    returns (names: seq<string>, types: seq<string>, rows: Table, safe: bool)
    ensures names == Names(Columns(order)) && |types| == |order| && forall t <- types :: t == "TEXT"
    ensures var height := if order == [] then 0 else |query(order[0].columnPath)|;
            && (safe <==> forall r <- order :: height <= |query(r.columnPath)|)
            && (safe ==> |rows| == height && forall k :: 0 <= k < height ==>
                  |rows[k]| == |order|
                  && forall c :: 0 <= c < |order| ==>
                       k < |query(order[c].columnPath)| && rows[k][c] == query(order[c].columnPath)[k])
    ensures safe ==> IsTransposed(Queried(order, query), XmlHeight(Queried(order, query)), rows)
  {
    var cols: Table := [];
    names, types := [], [];
    for i := 0 to |order|
      invariant cols == Queried(order[..i], query)
      invariant names == Names(Columns(order[..i]))
      invariant |types| == i && forall t <- types :: t == "TEXT"
    {
      names := names + [order[i].columnName];
      types := types + ["TEXT"];
      cols := cols + [query(order[i].columnPath)];
    }
    assert order[..|order|] == order;
    if |cols| == 0 {
      return names, types, [], true;
    }
    rows, safe := BuildRows(cols, |cols[0]|);
  }

  /** The column gathering of ExtractJSONPath; `rows` follows the last rule, and a path that
      does not parse ends the job. */
  method JsonFormat(order: seq<Rule>, parses: string -> bool, query: string -> seq<Cell>)
    returns (columns: seq<Column>, rows: Table, parsed: bool, safe: bool)
    ensures parsed <==> forall r <- order :: parses(r.columnPath)
    ensures parsed ==> columns == Columns(order)
    ensures var height := if order == [] then 0 else |query(order[|order| - 1].columnPath)|;
            parsed ==>
              && (safe <==> forall r <- order :: height <= |query(r.columnPath)|)
              && (safe ==> |rows| == height && forall k :: 0 <= k < height ==>
                    |rows[k]| == |order|
                    && forall c :: 0 <= c < |order| ==>
                         k < |query(order[c].columnPath)| && rows[k][c] == query(order[c].columnPath)[k])
    ensures parsed && safe ==> IsTransposed(Queried(order, query), JsonHeight(Queried(order, query)), rows)
  {
    var allCols: Table := [];
    var height := 0;
    columns, rows, safe := [], [], true;
    for i := 0 to |order|
      invariant allCols == Queried(order[..i], query)
      invariant columns == Columns(order[..i])
      invariant height == JsonHeight(allCols)
      invariant forall r <- order[..i] :: parses(r.columnPath)
    {
      columns := columns + [ColumnOf(order[i])];
      if !parses(order[i].columnPath) {
        return columns, rows, false, safe;
      }
      allCols := allCols + [query(order[i].columnPath)];
      height := |query(order[i].columnPath)|;
    }
    assert order[..|order|] == order;
    parsed := true;
    rows, safe := BuildRows(allCols, height);
  }

  // ---- paths that do not parse ----

  /** getXMLRules: the first path that does not compile ends the loop. */
  function Compiled(order: seq<Rule>, parses: string -> bool): seq<Rule> {
    if order == [] || !parses(order[0].columnPath) then [] else [order[0]] + Compiled(order[1..], parses)
  }

  method GetXmlRules(order: seq<Rule>, parses: string -> bool) returns (rules: seq<Rule>)
    ensures rules <= order && (forall r <- rules :: parses(r.columnPath))
    ensures |rules| < |order| ==> !parses(order[|rules|].columnPath)
    ensures rules == Compiled(order, parses)
  {
    rules := [];
    var i := 0;
    while i < |order|
      invariant i <= |order| && rules + Compiled(order[i..], parses) == Compiled(order, parses)
      invariant rules == order[..i] && forall r <- rules :: parses(r.columnPath)
    {
      assert order[i..][1..] == order[i + 1..];
      if !parses(order[i].columnPath) {
        break;
      }
      rules := rules + [order[i]];
      i := i + 1;
    }
  }

  lemma {:induction false} CompiledAll(order: seq<Rule>, parses: string -> bool)
    requires forall r <- order :: parses(r.columnPath)
    ensures Compiled(order, parses) == order
  {
    if order != [] {
      CompiledAll(order[1..], parses);
    }
  }

  /** One bad XPath makes the set of extracted columns depend on the map: it is independent of the
      iteration order exactly when all paths compile or none does. */
  lemma XmlRulesAreOrderFree(rules: seq<Rule>, parses: string -> bool)
    ensures (forall p, q :: IsOrder(p, rules) && IsOrder(q, rules) ==>
               multiset(Compiled(p, parses)) == multiset(Compiled(q, parses)))
            <==> (forall r <- rules :: parses(r.columnPath)) || (forall r <- rules :: !parses(r.columnPath))
  {
    if forall r <- rules :: parses(r.columnPath) {
      forall p | IsOrder(p, rules) ensures Compiled(p, parses) == p {
        forall r | r in p ensures r in rules { assert r in multiset(rules); }
        CompiledAll(p, parses);
      }
    } else if forall r <- rules :: !parses(r.columnPath) {
      forall p | IsOrder(p, rules) ensures Compiled(p, parses) == [] {
        assert p != [] ==> p[0] in multiset(rules);
      }
    } else {
      var x, y :| x in rules && y in rules && parses(x.columnPath) && !parses(y.columnPath);
      var p := BringForward(rules, x);
      var q := BringForward(rules, y);
      assert IsOrder(p, rules) && IsOrder(q, rules);
      assert |multiset(Compiled(p, parses))| > 0 && Compiled(q, parses) == [];
    }
  }

  lemma BringForward(rules: seq<Rule>, x: Rule) returns (p: seq<Rule>)
    requires x in rules
    ensures multiset(p) == multiset(rules) && p != [] && p[0] == x
  {
    var i :| 0 <= i < |rules| && rules[i] == x;
    p := [x] + rules[..i] + rules[i + 1..];
    assert rules == rules[..i] + [x] + rules[i + 1..];
  }

  function Unparsable(parses: string -> bool): Rule -> bool {
    (r: Rule) => !parses(r.columnPath)
  }

  lemma {:induction false} KeepAppend(s: seq<Rule>, x: Rule, hit: Rule -> bool)
    ensures SpliceDelete.Keep(s + [x], hit) == SpliceDelete.Keep(s, hit) + if hit(x) then [] else [x]
  {
    if s == [] {
      assert s + [x] == [x] && [x][1..] == [];
    } else {
      assert (s + [x])[1..] == s[1..] + [x];
      KeepAppend(s[1..], x, hit);
    }
  }

  /** What one more rule adds to the columns and to the values gathered. */
  lemma GatherStep(order: seq<Rule>, i: nat, parses: string -> bool, query: string -> seq<Cell>)
    requires i < |order|
    ensures Columns(order[..i + 1]) == Columns(order[..i]) + [ColumnOf(order[i])]
    ensures var was := SpliceDelete.Keep(order[..i], Unparsable(parses));
            var now := SpliceDelete.Keep(order[..i + 1], Unparsable(parses));
            if parses(order[i].columnPath) then
              Queried(now, query) == Queried(was, query) + [query(order[i].columnPath)]
            else Queried(now, query) == Queried(was, query)
  {
    KeepAppend(order[..i], order[i], Unparsable(parses));
    assert order[..i + 1] == order[..i] + [order[i]];
    hide SpliceDelete.Keep, Queried, Columns;
    var was := SpliceDelete.Keep(order[..i], Unparsable(parses));
    assert was + [] == was;
    QueriedAppend(order[..i], order[i], query);
    QueriedAppend(was, order[i], query);
  }

  /** The API tick passes over a path that does not parse, after it has appended its name. */
  method GatherApi(order: seq<Rule>, parses: string -> bool, query: string -> seq<Cell>)
    returns (columns: seq<Column>, allCols: Table, height: nat)
    ensures columns == Columns(order)
    ensures allCols == Queried(SpliceDelete.Keep(order, Unparsable(parses)), query)
    ensures height == JsonHeight(allCols)
  {
    allCols, height, columns := [], 0, [];
    for i := 0 to |order|
      invariant allCols == Queried(SpliceDelete.Keep(order[..i], Unparsable(parses)), query)
      invariant columns == Columns(order[..i])
      invariant height == JsonHeight(allCols)
    {
      hide SpliceDelete.Keep, Queried, Columns, Unparsable;
      GatherStep(order, i, parses, query);
      columns := columns + [ColumnOf(order[i])];
      if !parses(order[i].columnPath) {
        continue;
      }
      allCols := allCols + [query(order[i].columnPath)];
      height := |query(order[i].columnPath)|;
    }
    assert order[..|order|] == order;
  }

  method ApiFormat(order: seq<Rule>, parses: string -> bool, query: string -> seq<Cell>)
    returns (columns: seq<Column>, rows: Table, safe: bool)
    ensures columns == Columns(order)
    ensures var kept := SpliceDelete.Keep(order, (r: Rule) => !parses(r.columnPath));
            var height := if kept == [] then 0 else |query(kept[|kept| - 1].columnPath)|;
            && (safe <==> forall r <- kept :: height <= |query(r.columnPath)|)
            && (safe ==> |rows| == height && forall k :: 0 <= k < height ==>
                  |rows[k]| == |kept|
                  && forall c :: 0 <= c < |kept| ==>
                       k < |query(kept[c].columnPath)| && rows[k][c] == query(kept[c].columnPath)[k])
  {
    var allCols: Table, height: nat;
    columns, allCols, height := GatherApi(order, parses, query);
    hide SpliceDelete.Keep, Columns;
    rows, safe := BuildRows(allCols, height);
  }

  /** The cells of a row are those of `kept`, the names above them those of `order`. */
  ghost predicate UnderOwnNames(order: seq<Rule>, kept: seq<Rule>, query: string -> seq<Cell>) {
    |kept| <= |order| && forall i :: 0 <= i < |kept| ==> query(kept[i].columnPath) == query(order[i].columnPath)
  }

  ghost predicate BadPathsLast(order: seq<Rule>, parses: string -> bool) {
    forall i, j :: 0 <= i < j < |order| && !parses(order[i].columnPath) ==> !parses(order[j].columnPath)
  }

  ghost predicate InFront(kept: seq<Rule>, order: seq<Rule>) {
    |kept| <= |order| && forall i :: 0 <= i < |kept| ==> kept[i].columnPath == order[i].columnPath
  }

  lemma InFrontTail(rest: seq<Rule>, order: seq<Rule>)
    requires order != []
    ensures InFront([order[0]] + rest, order) <==> InFront(rest, order[1..])
  {
    var kept := [order[0]] + rest;
    if InFront(kept, order) {
      assert forall i :: 0 <= i < |rest| ==> rest[i] == kept[i + 1] && order[1..][i] == order[i + 1];
    }
    if InFront(rest, order[1..]) {
      assert forall i :: 0 < i < |kept| ==> kept[i] == rest[i - 1] && order[i] == order[1..][i - 1];
    }
  }

  lemma {:induction false} KeepsNoBad(order: seq<Rule>, parses: string -> bool)
    requires forall j :: 0 <= j < |order| ==> !parses(order[j].columnPath)
    ensures SpliceDelete.Keep(order, Unparsable(parses)) == []
  {
    if order != [] {
      KeepsNoBad(order[1..], parses);
    }
  }

  lemma {:induction false} KeptInFront(order: seq<Rule>, parses: string -> bool)
    ensures BadPathsLast(order, parses) <==> InFront(SpliceDelete.Keep(order, Unparsable(parses)), order)
  {
    var kept := SpliceDelete.Keep(order, Unparsable(parses));
    if order != [] {
      if parses(order[0].columnPath) {
        var rest := SpliceDelete.Keep(order[1..], Unparsable(parses));
        assert kept == [order[0]] + rest;
        hide InFront, BadPathsLast, SpliceDelete.Keep;
        KeptInFront(order[1..], parses);
        InFrontTail(rest, order);
        BadPathsLastTail(order, parses);
      } else if j :| 0 <= j < |order| && parses(order[j].columnPath) {
        KeepsGood(order, parses, j);
        assert kept[0] in kept;
      } else {
        KeepsNoBad(order, parses);
      }
    }
  }

  lemma BadPathsLastTail(order: seq<Rule>, parses: string -> bool)
    requires order != [] && parses(order[0].columnPath)
    ensures BadPathsLast(order, parses) <==> BadPathsLast(order[1..], parses)
  {
    if BadPathsLast(order[1..], parses) {
      forall i, j | 0 <= i < j < |order| && !parses(order[i].columnPath) ensures !parses(order[j].columnPath) {
        assert order[i] == order[1..][i - 1] && order[j] == order[1..][j - 1];
      }
    }
  }

  lemma {:induction false} KeepsGood(order: seq<Rule>, parses: string -> bool, j: nat)
    requires j < |order| && parses(order[j].columnPath)
    ensures SpliceDelete.Keep(order, Unparsable(parses)) != []
  {
    if !parses(order[0].columnPath) {
      KeepsGood(order[1..], parses, j - 1);
    }
  }

  /** Rows are aligned for every message exactly when the paths agree. */
  lemma AlignedMeansInFront(order: seq<Rule>, kept: seq<Rule>)
    requires |kept| <= |order|
    ensures (forall query :: UnderOwnNames(order, kept, query)) <==> InFront(kept, order)
  {
    if i :| 0 <= i < |kept| && kept[i].columnPath != order[i].columnPath {
      var query := (path: string) => [Text(path)];
      assert !UnderOwnNames(order, kept, query);
    }
  }

  /** The values of an API row stand under their own names, for every message, exactly when the
      map yields all paths that do not parse last. */
  lemma ApiRowsAreAligned(order: seq<Rule>, parses: string -> bool)
    ensures (forall query :: UnderOwnNames(order, SpliceDelete.Keep(order, Unparsable(parses)), query))
            <==> BadPathsLast(order, parses)
  {
    hide SpliceDelete.Keep, Unparsable, InFront, BadPathsLast, UnderOwnNames;
    KeptInFront(order, parses);
    AlignedMeansInFront(order, SpliceDelete.Keep(order, Unparsable(parses)));
  }

  /** Over all iteration orders: API rows are aligned whatever the map does if and only if all paths
      parse or none does. */
  lemma ApiAlignmentIsOrderFree(rules: seq<Rule>, parses: string -> bool)
    ensures (forall p: seq<Rule> | IsOrder(p, rules) :: BadPathsLast(p, parses))
            <==> (forall r <- rules :: parses(r.columnPath)) || (forall r <- rules :: !parses(r.columnPath))
  {
    if x, y :| x in rules && y in rules && parses(x.columnPath) && !parses(y.columnPath) {
      var p := BringForward(rules, y);
      assert x in multiset(p);
      var j :| 0 <= j < |p| && p[j] == x;
      assert IsOrder(p, rules) && !BadPathsLast(p, parses);
    } else {
      forall p: seq<Rule> | IsOrder(p, rules) ensures BadPathsLast(p, parses) {
        forall i, j | 0 <= i < j < |p| && !parses(p[i].columnPath) ensures !parses(p[j].columnPath) {
          assert p[i] in multiset(rules) && p[j] in multiset(rules);
        }
      }
    }
  }

  // ---- properties of the transposition ----

  /** Transposition loses nothing: turned back, a rectangular table with both sides non-empty is
      the columns again. */
  lemma TransposeBack(cols: Table, height: nat, rows: Table, back: Table)
    requires Rectangular(cols, height) && cols != [] && height > 0
    requires IsTransposed(cols, height, rows) && IsTransposed(rows, |rows[0]|, back)
    ensures back == cols
  {
    forall c | 0 <= c < |cols| ensures back[c] == cols[c] {
      assert |rows[0]| == |cols|;
    }
  }

  lemma TransposedOnce(cols: Table, height: nat, a: Table, b: Table)
    requires IsTransposed(cols, height, a) && IsTransposed(cols, height, b)
    ensures a == b
  {
    forall r | 0 <= r < height ensures a[r] == b[r] {
    }
  }

  /** The raw cell of a path in row r. */
  function RawAt(query: string -> seq<Cell>, r: nat): string -> Cell {
    (path: string) => if r < |query(path)| then query(path)[r] else Null
  }

  /** Main result: when all columns have the same height, all three builders give, in every iteration
      order and for any JSON values, rows that mean the same after the transforms, which run in yet
      another order; and the transforms panic exactly when one of them does not find text. */
  lemma RowsMeanTheSame(rules: seq<Rule>, order: seq<Rule>, transformOrder: seq<Rule>, query: string -> seq<Cell>,
                        height: nat, rows: Table, r: nat, go: Interpreter)
    requires UniqueBy(rules, RuleColumn)
    requires multiset(order) == multiset(rules) && multiset(transformOrder) == multiset(rules)
    requires forall x <- rules :: Resolves(x, go) && |query(x.columnPath)| == height
    requires IsTransposed(Queried(order, query), height, rows) && r < height
    ensures rules != [] ==> XmlHeight(Queried(order, query)) == height
                            == JsonHeight(Queried(order, query))
    ensures var names := Names(Columns(order));
            && Run(names, rows[r], transformOrder, go).1
               == (if WantedText(rules, RawAt(query, r)) then Finished else Outcome.Panicked)
            && (WantedText(rules, RawAt(query, r)) ==>
                  RowMeans(rules, names, Run(names, rows[r], transformOrder, go).0, RawAt(query, r), go))
  {
    forall x | x in order ensures x in rules { assert x in multiset(rules); }
    MapPermuted(order, rules);
    assert |multiset(order)| == |order| && |multiset(rules)| == |rules|;
    forall i | 0 <= i < |order| ensures rows[r][i] == RawAt(query, r)(Columns(order)[i].path) {
      assert order[i] in order;
    }
    hide Run, RowMeans, Resolves;
    AlignedRowMeans(rules, Columns(order), rows[r], transformOrder, RawAt(query, r), go);
  }

  ghost predicate IsOrder(order: seq<Rule>, rules: seq<Rule>) {
    multiset(order) == multiset(rules)
  }

  function JsonRowCount(order: seq<Rule>, query: string -> seq<Cell>): nat {
    JsonHeight(Queried(order, query))
  }

  /** On ragged data the number of JSONPath rows is whatever rule the map yields last: it is
      independent of the order exactly when all columns are equally high. */
  lemma JsonHeightIsOrderFree(rules: seq<Rule>, query: string -> seq<Cell>)
    ensures (forall p, q :: IsOrder(p, rules) && IsOrder(q, rules) ==> JsonRowCount(p, query) == JsonRowCount(q, query))
            <==> (forall x <- rules, y <- rules :: |query(x.columnPath)| == |query(y.columnPath)|)
  {
    if forall x <- rules, y <- rules :: |query(x.columnPath)| == |query(y.columnPath)| {
      forall p, q | IsOrder(p, rules) && IsOrder(q, rules) ensures JsonRowCount(p, query) == JsonRowCount(q, query) {
        assert |multiset(p)| == |p| && |multiset(q)| == |q|;
        if p != [] {
          assert p[|p| - 1] in multiset(rules) && q[|q| - 1] in multiset(rules);
        }
      }
    } else {
      var x, y :| x in rules && y in rules && |query(x.columnPath)| != |query(y.columnPath)|;
      var i :| 0 <= i < |rules| && rules[i] == x;
      var j :| 0 <= j < |rules| && rules[j] == y;
      var p := MoveToEnd(rules, i);
      var q := MoveToEnd(rules, j);
      assert IsOrder(p, rules) && IsOrder(q, rules) && JsonRowCount(p, query) != JsonRowCount(q, query);
    }
  }

  function XmlRowCount(order: seq<Rule>, query: string -> seq<Cell>): nat {
    XmlHeight(Queried(order, query))
  }

  /** The number of XML rows is that of the rule the map yields first, with the same condition. */
  lemma XmlHeightIsOrderFree(rules: seq<Rule>, query: string -> seq<Cell>)
    ensures (forall p, q :: IsOrder(p, rules) && IsOrder(q, rules) ==> XmlRowCount(p, query) == XmlRowCount(q, query))
            <==> (forall x <- rules, y <- rules :: |query(x.columnPath)| == |query(y.columnPath)|)
  {
    if forall x <- rules, y <- rules :: |query(x.columnPath)| == |query(y.columnPath)| {
      forall p, q | IsOrder(p, rules) && IsOrder(q, rules) ensures XmlRowCount(p, query) == XmlRowCount(q, query) {
        assert |multiset(p)| == |p| && |multiset(q)| == |q|;
        if p != [] {
          assert p[0] in multiset(rules) && q[0] in multiset(rules);
        }
      }
    } else {
      var x, y :| x in rules && y in rules && |query(x.columnPath)| != |query(y.columnPath)|;
      var p := BringForward(rules, x);
      var q := BringForward(rules, y);
      assert IsOrder(p, rules) && IsOrder(q, rules) && XmlRowCount(p, query) != XmlRowCount(q, query);
    }
  }

  // ---- HTTP posts ----

  /** What becomes of a post. */
  datatype Post = Row(cells: seq<Cell>) | ErrorReturned | Panicked

  /** getRowFromJSON iterates the rule map anew and takes the first value of every column. A message
      or a path that does not parse is an error; then a path that selects nothing panics. */
  method RowFromJson(order: seq<Rule>, messageParses: bool, parses: string -> bool, query: string -> seq<Cell>)
    returns (post: Post)
    ensures post.ErrorReturned? <==> !messageParses || exists r <- order :: !parses(r.columnPath)
    ensures !post.ErrorReturned? ==> (post.Panicked? <==> exists r <- order :: query(r.columnPath) == [])
    ensures post.Row? ==>
              && |post.cells| == |order|
              && forall i :: 0 <= i < |order| ==>
                   query(order[i].columnPath) != [] && post.cells[i] == query(order[i].columnPath)[0]
    ensures post.Row? ==> post.cells == PostedRow(order, query)
  {
    if !messageParses {
      return ErrorReturned;
    }
    var allCols: Table := [];
    for i := 0 to |order|
      invariant allCols == Queried(order[..i], query)
      invariant forall k :: 0 <= k < i ==> parses(order[k].columnPath)
    {
      if !parses(order[i].columnPath) {
        return ErrorReturned;
      }
      allCols := allCols + [query(order[i].columnPath)];
    }
    assert order[..|order|] == order;
    var row: seq<Cell> := [];
    for cell := 0 to |allCols|
      invariant |row| == cell
      invariant forall k :: 0 <= k < cell ==> allCols[k] != [] && row[k] == allCols[k][0]
    {
      if |allCols[cell]| == 0 {
        assert order[cell] in order;
        return Post.Panicked;
      }
      row := row + [allCols[cell][0]];
    }
    forall k | 0 <= k < |order| ensures row[k] == PostedRow(order, query)[k] {
      assert allCols[k] == query(order[k].columnPath) && allCols[k] != [];
      assert RawFirst(query)(order[k].columnPath) == query(order[k].columnPath)[0];
    }
    assert row == PostedRow(order, query);
    return Row(row);
  }

  /** getRowFromForm reuses the stored columns, so no second map iteration enters. */
  method RowFromForm(columns: seq<Column>, form: map<string, seq<string>>) returns (row: seq<Cell>, safe: bool)
    ensures safe <==> forall c <- columns :: c.path in form && form[c.path] != []
    ensures safe ==> |row| == |columns| && forall i :: 0 <= i < |columns| ==> row[i] == Text(form[columns[i].path][0])
  {
    row := [];
    for i := 0 to |columns|
      invariant |row| == i
      invariant forall k :: 0 <= k < i ==>
                  columns[k].path in form && form[columns[k].path] != [] && row[k] == Text(form[columns[k].path][0])
    {
      if columns[i].path !in form || |form[columns[i].path]| == 0 {
        return row, false;
      }
      row := row + [Text(form[columns[i].path][0])];
    }
    safe := true;
  }

  ghost predicate SelectsAll(rules: seq<Rule>, query: string -> seq<Cell>) {
    forall r <- rules :: query(r.columnPath) != []
  }

  /** Every value stands under the name of its own rule. */
  ghost predicate Aligned(named: seq<Rule>, valued: seq<Rule>, query: string -> seq<Cell>)
    requires |named| == |valued| && SelectsAll(named, query) && SelectsAll(valued, query)
  {
    forall i :: 0 <= i < |named| ==> query(valued[i].columnPath)[0] == query(named[i].columnPath)[0]
  }

  ghost predicate SamePaths(a: seq<Rule>, b: seq<Rule>) {
    |a| == |b| && forall i :: 0 <= i < |a| ==> a[i].columnPath == b[i].columnPath
  }

  /** A JSON post iterates the rule map a second time. It is aligned for every message exactly
      when the second iteration agrees with the first path by path. */
  lemma JsonPostAlignment(named: seq<Rule>, valued: seq<Rule>)
    requires |named| == |valued|
    ensures (forall query :: SelectsAll(named, query) && SelectsAll(valued, query) ==> Aligned(named, valued, query))
            <==> SamePaths(named, valued)
  {
    if i :| 0 <= i < |named| && named[i].columnPath != valued[i].columnPath {
      var query := (path: string) => [Text(path)];
      assert SelectsAll(named, query) && SelectsAll(valued, query) && !Aligned(named, valued, query);
    }
  }

  /** With distinct paths that is: when the rules came out of the map in the same order again. */
  lemma SamePathsIsSameOrder(named: seq<Rule>, valued: seq<Rule>)
    requires multiset(named) == multiset(valued)
    requires UniqueBy(named, RulePath)
    ensures |named| == |valued| && (SamePaths(named, valued) <==> named == valued)
  {
    assert |multiset(named)| == |named| && |multiset(valued)| == |valued|;
    if SamePaths(named, valued) {
      forall i | 0 <= i < |named| ensures named[i] == valued[i] {
        assert valued[i] in multiset(named);
        var k :| 0 <= k < |named| && named[k] == valued[i];
      }
    }
  }

  /** The first value of a path in a message. */
  function RawFirst(query: string -> seq<Cell>): string -> Cell {
    (path: string) => if query(path) != [] then query(path)[0] else Null
  }

  /** The row that getRowFromJSON builds from the second iteration. */
  function PostedRow(valued: seq<Rule>, query: string -> seq<Cell>): seq<Cell> {
    Map((r: Rule) => RawFirst(query)(r.columnPath), valued)
  }

  /** What a JSON post says, under the names of the first iteration. */
  ghost predicate PostIsRight(rules: seq<Rule>, named: seq<Rule>, valued: seq<Rule>, transformOrder: seq<Rule>,
                              query: string -> seq<Cell>, go: Interpreter) {
    var names := Names(Columns(named));
    && Run(names, PostedRow(valued, query), transformOrder, go).1
       == (if WantedText(rules, RawFirst(query)) then Finished else Outcome.Panicked)
    && (WantedText(rules, RawFirst(query)) ==>
          RowMeans(rules, names, Run(names, PostedRow(valued, query), transformOrder, go).0, RawFirst(query), go))
  }

  ghost predicate AllResolve(rules: seq<Rule>, go: Interpreter) {
    forall r <- rules :: Resolves(r, go)
  }

  lemma RepeatedOrderIsRight(rules: seq<Rule>, named: seq<Rule>, valued: seq<Rule>, transformOrder: seq<Rule>,
                             query: string -> seq<Cell>, go: Interpreter)
    requires UniqueBy(rules, RuleColumn) && AllResolve(rules, go) && SamePaths(named, valued)
    requires multiset(named) == multiset(rules) && multiset(transformOrder) == multiset(rules)
    ensures PostIsRight(rules, named, valued, transformOrder, query, go)
  {
    MapPermuted(named, rules);
    forall i | 0 <= i < |named| ensures PostedRow(valued, query)[i] == RawFirst(query)(Columns(named)[i].path) {
      assert valued[i].columnPath == named[i].columnPath;
    }
    hide Run, RowMeans, Resolves, RawFirst;
    AlignedRowMeans(rules, Columns(named), PostedRow(valued, query), transformOrder, RawFirst(query), go);
  }

  /** Every function returns its argument. */
  function Identities(rules: seq<Rule>): Interpreter {
    Interpreter(Map((r: Rule) => Function("", r.transform, ""), rules), (fn: Function) => Callable((s: string) => s))
  }

  lemma IdentitiesResolve(rules: seq<Rule>)
    ensures AllResolve(rules, Identities(rules))
    ensures forall r: Rule, cell: Cell :: Applied(r, Identities(rules), cell) == cell
  {
    var functions := Identities(rules).functions;
    forall r <- rules ensures FindFunction(functions, r.transform).Some? {
      var k :| 0 <= k < |rules| && rules[k] == r;
      assert functions[k].name == r.transform && functions[k] in functions;
      FoundByName(functions, r.transform);
    }
  }

  /** Rules that change nothing leave a row as it is. */
  lemma {:induction false} IdentityRun(rules: seq<Rule>, names: seq<string>, record: seq<Cell>, order: seq<Rule>)
    ensures RewriteAll(names, record, order, Identities(rules)) == record
    decreases |order|
  {
    if order != [] {
      IdentitiesResolve(rules);
      hide Identities, Applied;
      assert Rewrite(names, record, order[0], Identities(rules)) == record;
      IdentityRun(rules, names, record, order[1..]);
    }
  }

  /** Each path's value is the path itself. */
  const PathTeller: string -> seq<Cell> := (path: string) => [Text(path)]

  /** Under identities the row is what was posted. */
  lemma IdentityPost(rules: seq<Rule>, named: seq<Rule>, valued: seq<Rule>, transformOrder: seq<Rule>)
    requires PostIsRight(rules, named, valued, transformOrder, PathTeller, Identities(rules))
    ensures RowMeans(rules, Names(Columns(named)), PostedRow(valued, PathTeller), RawFirst(PathTeller),
                     Identities(rules))
  {
    var go, names, row := Identities(rules), Names(Columns(named)), PostedRow(valued, PathTeller);
    assert WantedText(rules, RawFirst(PathTeller));
    RunFinishesExactly(names, row, transformOrder, go);
    IdentityRun(rules, names, row, transformOrder);
    hide Run, RewriteAll, Identities, RowMeans, Proceeds, PostedRow;
  }

  lemma NamedCellTells(named: seq<Rule>, valued: seq<Rule>, go: Interpreter, i: nat)
    requires |named| == |valued| && i < |named| && Distinct(Names(Columns(named)))
    requires forall r: Rule, cell: Cell :: Applied(r, go, cell) == cell
    requires CellMeans(named[i], Names(Columns(named)), PostedRow(valued, PathTeller), RawFirst(PathTeller), go)
    ensures valued[i].columnPath == named[i].columnPath
  {
    hide Applied;
    var names, row := Names(Columns(named)), PostedRow(valued, PathTeller);
    var k :| 0 <= k < |names| && names[k] == named[i].columnName
             && row[k] == Applied(named[i], go, RawFirst(PathTeller)(named[i].columnPath));
    assert names[i] == names[k];
  }

  lemma OtherOrderIsWrong(rules: seq<Rule>, named: seq<Rule>, valued: seq<Rule>, transformOrder: seq<Rule>)
    requires UniqueBy(rules, RuleColumn) && multiset(named) == multiset(rules)
    requires multiset(valued) == multiset(rules) && multiset(transformOrder) == multiset(rules)
    requires PostIsRight(rules, named, valued, transformOrder, PathTeller, Identities(rules))
    ensures SamePaths(named, valued)
  {
    assert |multiset(named)| == |named| && |multiset(valued)| == |valued|;
    IdentityPost(rules, named, valued, transformOrder);
    IdentitiesResolve(rules);
    hide Identities, Applied, AllResolve, PostIsRight, CellMeans, Columns, Names, PostedRow;
    forall i | 0 <= i < |named| ensures valued[i].columnPath == named[i].columnPath {
      assert named[i] in multiset(rules);
      NamedCellTells(named, valued, Identities(rules), i);
    }
  }

  /** The exact condition, transforms included: a JSON post says what its rules say, for every
      message and all functions, if and only if the second iteration repeats the first path by path. */
  lemma JsonPostIsRightExactly(rules: seq<Rule>, named: seq<Rule>, valued: seq<Rule>, transformOrder: seq<Rule>)
    requires UniqueBy(rules, RuleColumn) && multiset(named) == multiset(rules)
    requires multiset(valued) == multiset(rules) && multiset(transformOrder) == multiset(rules)
    ensures (forall query: string -> seq<Cell>, go: Interpreter | AllResolve(rules, go) ::
               SelectsAll(rules, query) ==> PostIsRight(rules, named, valued, transformOrder, query, go))
            <==> SamePaths(named, valued)
  {
    hide PostIsRight, AllResolve, UniqueBy, SamePaths;
    if SamePaths(named, valued) {
      forall query: string -> seq<Cell>, go: Interpreter | AllResolve(rules, go)
        ensures PostIsRight(rules, named, valued, transformOrder, query, go)
      {
        RepeatedOrderIsRight(rules, named, valued, transformOrder, query, go);
      }
    }
    IdentitiesResolve(rules);
    if PostIsRight(rules, named, valued, transformOrder, PathTeller, Identities(rules)) {
      OtherOrderIsWrong(rules, named, valued, transformOrder);
    }
  }

  function RawField(form: map<string, seq<string>>): string -> Cell {
    (path: string) => if path in form && form[path] != [] then Text(form[path][0]) else Null
  }

  /** A form post needs no such hypothesis. */
  lemma FormPostMeaning(rules: seq<Rule>, order: seq<Rule>, transformOrder: seq<Rule>, form: map<string, seq<string>>,
                        row: seq<Cell>, go: Interpreter)
    requires UniqueBy(rules, RuleColumn)
    requires multiset(order) == multiset(rules) && multiset(transformOrder) == multiset(rules)
    requires forall x <- rules :: Resolves(x, go) && x.columnPath in form && form[x.columnPath] != []
    requires |row| == |order| && forall i :: 0 <= i < |order| ==>
               order[i].columnPath in form && form[order[i].columnPath] != []
                   && row[i] == Text(form[order[i].columnPath][0])
    ensures Run(Names(Columns(order)), row, transformOrder, go).1.Finished?
    ensures RowMeans(rules, Names(Columns(order)), Run(Names(Columns(order)), row, transformOrder, go).0,
                     RawField(form), go)
  {
    MapPermuted(order, rules);
    hide Run, RowMeans, Resolves;
    AlignedRowMeans(rules, Columns(order), row, transformOrder, RawField(form), go);
  }
}
