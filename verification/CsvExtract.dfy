/** CSV files: columns from the rule map, sorted by path; one row, one insert and one counter
    bump per record behind the header; and header inference. */
module CsvExtract {
  import opened Wrappers
  import opened Domain
  import opened Decimal
  import opened RowEngine
  import opened RowMeaning

  // ---- sort.Slice by path text ----

  /** Go's < on strings. */
  predicate Less(a: string, b: string) {
    b != [] && (a == [] || a[0] < b[0] || (a[0] == b[0] && Less(a[1..], b[1..])))
  }

  lemma {:induction false} LessIsTotal(a: string, b: string)
    ensures Less(a, b) || Less(b, a) || a == b
  {
    if a != [] && b != [] && a[0] == b[0] {
      LessIsTotal(a[1..], b[1..]);
      assert a == [a[0]] + a[1..] && b == [b[0]] + b[1..];
    }
  }

  lemma SameStart(a: string, b: string, k: nat)
    requires 0 < k <= |a| && k <= |b|
    ensures a[..k] == b[..k] <==> a[0] == b[0] && a[1..][..k - 1] == b[1..][..k - 1]
  {
    assert a[..k] == [a[0]] + a[1..][..k - 1] && b[..k] == [b[0]] + b[1..][..k - 1];
  }

  /** Byte by byte: a text comes before its continuations, and otherwise the first difference decides. */
  lemma {:induction false} LessExactly(a: string, b: string)
    ensures Less(a, b) <==>
              || (a <= b && a != b)
              || exists k :: 0 <= k < |a| && k < |b| && a[..k] == b[..k] && a[k] < b[k]
  {
    if a != [] && b != [] {
      forall k | 0 < k < |a| && k < |b|
        ensures a[..k] == b[..k] <==> a[0] == b[0] && a[1..][..k - 1] == b[1..][..k - 1]
      {
        SameStart(a, b, k);
      }
      assert a[..0] == b[..0];
      if a[0] == b[0] {
        LessExactly(a[1..], b[1..]);
        assert a == [a[0]] + a[1..] && b == [b[0]] + b[1..];
        hide Less;
        if k :| 0 <= k < |a[1..]| && k < |b[1..]| && a[1..][..k] == b[1..][..k] && a[1..][k] < b[1..][k] {
          assert a[..k + 1] == b[..k + 1] && a[k + 1] < b[k + 1];
        }
        if k :| 0 <= k < |a| && k < |b| && a[..k] == b[..k] && a[k] < b[k] {
          assert k > 0 && a[1..][..k - 1] == b[1..][..k - 1] && a[1..][k - 1] < b[1..][k - 1];
        }
      }
    }
  }

  /** All that an unstable sort promises: a permutation in which nothing precedes a smaller path. */
  ghost predicate SortedFrom(before: seq<Column>, after: seq<Column>) {
    && multiset(after) == multiset(before)
    && forall i, j :: 0 <= i < j < |after| ==> !Less(after[j].path, after[i].path)
  }

  /** The columns ascend by path, read as text: field 10 comes before field 2. */
  lemma SortedColumnsAscend(before: seq<Column>, after: seq<Column>, i: nat, j: nat)
    requires SortedFrom(before, after) && i < j < |after|
    ensures multiset(after) == multiset(before)
    ensures var a, b := after[i].path, after[j].path;
            a <= b || exists k :: 0 <= k < |a| && k < |b| && a[..k] == b[..k] && a[k] < b[k]
    ensures !(after[i].path == "2" && after[j].path == "10")
  {
    LessIsTotal(after[i].path, after[j].path);
    LessExactly(after[i].path, after[j].path);
    assert "10"[..0] == "2"[..0] && "10"[0] < "2"[0];
    LessExactly("10", "2");
  }

  lemma FirstColumnIsUnique(a: seq<Column>, b: seq<Column>)
    requires SortedFrom(a, a) && SortedFrom(b, b) && multiset(a) == multiset(b) && a != []
    requires UniqueBy(a, ColumnPath)
    ensures b != [] && a[0] == b[0]
  {
    assert a[0] in multiset(b) && b != [];
    assert b[0] in multiset(a);
    var i :| 0 <= i < |a| && a[i] == b[0];
    var j :| 0 <= j < |b| && b[j] == a[0];
    LessIsTotal(a[0].path, b[0].path);
  }

  lemma TailIsSorted(a: seq<Column>)
    requires SortedFrom(a, a) && a != []
    ensures SortedFrom(a[1..], a[1..]) && (UniqueBy(a, ColumnPath) ==> UniqueBy(a[1..], ColumnPath))
  {
    hide Less;
  }

  /** With distinct paths the column order does not depend on the map or on the sort. */
  lemma {:induction false} ColumnOrderIsUnique(a: seq<Column>, b: seq<Column>)
    requires SortedFrom(a, a) && SortedFrom(b, b) && multiset(a) == multiset(b)
    requires UniqueBy(a, ColumnPath)
    ensures a == b
  {
    hide SortedFrom, Less, UniqueBy;
    assert |multiset(a)| == |a| && |multiset(b)| == |b|;
    if a != [] {
      FirstColumnIsUnique(a, b);
      TailIsSorted(a);
      TailIsSorted(b);
      RemoveSame(a, b, 0);
      assert b[..0] + b[1..] == b[1..];
      ColumnOrderIsUnique(a[1..], b[1..]);
      assert a == [a[0]] + a[1..] && b == [b[0]] + b[1..];
    }
  }

  // ---- one record ----

  /** An unparsable path leaves nil; a parsed one outside the record panics. */
  function CsvCell(record: seq<string>, path: string): Option<Cell> {
    match Atoi(path)
    case None => Some(Null)
    case Some(n) => if 0 <= n < |record| then Some(Text(record[n])) else None
  }

  function CsvRow(record: seq<string>, columns: seq<Column>): (row: Option<seq<Cell>>)
    ensures row.Some? <==> forall c <- columns :: CsvCell(record, c.path).Some?
    ensures row.Some? ==> |row.value| == |columns|
    ensures row.Some? ==> forall i :: 0 <= i < |columns| ==> CsvCell(record, columns[i].path) == Some(row.value[i])
  {
    if columns == [] then Some([])
    else
      var last := |columns| - 1;
      assert columns == columns[..last] + [columns[last]];
      match (CsvRow(record, columns[..last]), CsvCell(record, columns[last].path))
      case (Some(front), Some(cell)) => Some(front + [cell])
      case (_, _) => None
  }

  method GetCsvRow(record: seq<string>, columns: seq<Column>) returns (row: array<Cell>, panicked: bool)
    ensures fresh(row) && row.Length == |columns|
    ensures panicked <==>
              exists c <- columns :: Atoi(c.path).Some? && !(0 <= Atoi(c.path).value < |record|)
    ensures !panicked ==> forall i :: 0 <= i < |columns| ==>
              (Atoi(columns[i].path).None? && row[i] == Null)
              || (Atoi(columns[i].path).Some? && row[i] == Text(record[Atoi(columns[i].path).value]))
    ensures panicked <==> CsvRow(record, columns).None?
    ensures !panicked ==> CsvRow(record, columns) == Some(row[..])
  {
    hide Atoi, CsvRow;
    row, panicked := new Cell[|columns|](_ => Null), false;
    var i := 0;
    while i < |columns|
      invariant i <= |columns| && fresh(row)
      invariant forall k :: 0 <= k < i ==> CsvCell(record, columns[k].path) == Some(row[k])
      invariant forall k :: i <= k < |columns| ==> row[k] == Null
    {
      match Atoi(columns[i].path) {
        case None =>
        case Some(path) =>
          if path < 0 || path >= |record| {
            assert CsvCell(record, columns[i].path).None? && columns[i] in columns;
            return row, true;
          }
          row[i] := Text(record[path]);
      }
      i := i + 1;
    }
    assert forall c <- columns :: CsvCell(record, c.path).Some?;
    assert CsvRow(record, columns).value == row[..];
  }

  const COLTYPE_TEXT := "TEXT"
  const COLTYPE_VARCHAR := "VARCHAR(32)"

  /** The bulk insert quotes the cells of text columns and asserts that they are strings, so the
      nil that an unparsable path left behind panics there. */
  predicate InsertPanics(types: seq<string>, row: seq<Cell>) {
    exists i :: 0 <= i < |row| && CellPanics(types, row, i)
  }

  predicate CellPanics(types: seq<string>, row: seq<Cell>, i: nat)
    requires i < |row|
  {
    i >= |types| || (IsTextType(types[i]) && !row[i].Text?)
  }

  predicate IsTextType(columnType: string) {
    columnType == COLTYPE_TEXT || columnType == COLTYPE_VARCHAR
  }

  /** The row that is loaded for a record, with the outcome of its transforms and of the statement
      that is built from it. */
  function LoadedRow(record: seq<string>, columns: seq<Column>, order: seq<Rule>, go: Interpreter): (seq<Cell>, Outcome)
  {
    match CsvRow(record, columns)
    case None => ([], Panicked)
    case Some(row) =>
      var (done, outcome) := Run(Names(columns), row, order, go);
      if InsertPanics(Types(columns), done) then (done, Panicked) else (done, outcome)
  }

  /** What a record comes to. A path that is a number outside the record panics. Otherwise the fields
      go through the transforms; a panic of these, or a cell without text in a column of one of the
      two text types, panics; and a transform that only fails ends the transforms, while the row is
      loaded as it is then. */
  lemma LoadedRowExactly(record: seq<string>, columns: seq<Column>, order: seq<Rule>, go: Interpreter, row: seq<Cell>)
    requires |row| == |columns|
    requires forall i :: 0 <= i < |columns| ==>
               row[i] == match Atoi(columns[i].path)
                         case None => Null
                         case Some(n) => if 0 <= n < |record| then Text(record[n]) else Null
    ensures var (done, outcome) := Run(Names(columns), row, order, go);
            LoadedRow(record, columns, order, go).1
            == if || outcome.Panicked?
                  || (exists c <- columns :: Atoi(c.path).Some? && !(0 <= Atoi(c.path).value < |record|))
                  || exists i :: 0 <= i < |columns| && columns[i].columnType in {"TEXT", "VARCHAR(32)"}
                                 && !done[i].Text?
               then Panicked else outcome
    ensures !LoadedRow(record, columns, order, go).1.Panicked? ==>
              LoadedRow(record, columns, order, go).0 == Run(Names(columns), row, order, go).0
  {
    hide Run, Atoi;
    if CsvRow(record, columns).Some? {
      var built := CsvRow(record, columns).value;
      forall i | 0 <= i < |columns| ensures built[i] == row[i] {
        assert columns[i] in columns && CsvCell(record, columns[i].path).Some?;
      }
      assert built == row;
      var done := Run(Names(columns), row, order, go).0;
      assert forall i :: 0 <= i < |columns| ==>
          (CellPanics(Types(columns), done, i) <==> columns[i].columnType in {"TEXT", "VARCHAR(32)"} && !done[i].Text?);
    }
  }

  // ---- the whole file ----

  datatype Ack = Ack(inserted: bool, counted: bool)

  /** The rows of `rows` whose insert was acknowledged, in order. */
  function Inserted(rows: seq<seq<Cell>>, acks: seq<Ack>): seq<seq<Cell>>
    requires |rows| == |acks|
  {
    if rows == [] then []
    else
      var last := |rows| - 1;
      Inserted(rows[..last], acks[..last]) + if acks[last].inserted then [rows[last]] else []
  }

  function Counted(acks: seq<Ack>): nat {
    if acks == [] then 0
    else Counted(acks[..|acks| - 1]) + if acks[|acks| - 1].inserted && acks[|acks| - 1].counted then 1 else 0
  }

  lemma OneMoreAck(acks: seq<Ack>, n: nat, hit: Ack -> bool)
    requires |acks| == n + 1
    ensures |set i | 0 <= i < n + 1 && hit(acks[i])|
            == |set i | 0 <= i < n && hit(acks[..n][i])| + if hit(acks[n]) then 1 else 0
  {
    var was, now := set i | 0 <= i < n && hit(acks[..n][i]), set i | 0 <= i < n + 1 && hit(acks[i]);
    forall i | 0 <= i < n ensures i in now <==> i in was {
      assert acks[..n][i] == acks[i];
    }
    if hit(acks[n]) {
      assert now == was + {n};
    } else {
      assert now == was;
    }
  }

  lemma {:induction false} InsertedCount(rows: seq<seq<Cell>>, acks: seq<Ack>)
    requires |rows| == |acks|
    ensures |Inserted(rows, acks)| == |set i | 0 <= i < |acks| && acks[i].inserted|
  {
    if rows != [] {
      var n := |rows| - 1;
      InsertedCount(rows[..n], acks[..n]);
      OneMoreAck(acks, n, (a: Ack) => a.inserted);
      assert (set i | 0 <= i < n && ((a: Ack) => a.inserted)(acks[..n][i]))
          == set i | 0 <= i < |acks[..n]| && acks[..n][i].inserted;
      assert (set i | 0 <= i < n + 1 && ((a: Ack) => a.inserted)(acks[i]))
          == set i | 0 <= i < |acks| && acks[i].inserted;
    }
  }

  /** The counter counts the rows that were inserted and counted. */
  lemma {:induction false} CountedCount(acks: seq<Ack>)
    ensures Counted(acks) == |set i | 0 <= i < |acks| && acks[i].inserted && acks[i].counted|
  {
    if acks != [] {
      var n, hit := |acks| - 1, (a: Ack) => a.inserted && a.counted;
      CountedCount(acks[..n]);
      OneMoreAck(acks, n, hit);
      assert (set i | 0 <= i < n && hit(acks[..n][i]))
          == set i | 0 <= i < |acks[..n]| && acks[..n][i].inserted && acks[..n][i].counted;
      assert (set i | 0 <= i < n + 1 && hit(acks[i])) == set i | 0 <= i < |acks| && acks[i].inserted && acks[i].counted;
    }
  }

  lemma {:induction false} InsertedPrefix(rows: seq<seq<Cell>>, acks: seq<Ack>, j: nat)
    requires j <= |rows| == |acks|
    ensures Inserted(rows[..j], acks[..j]) <= Inserted(rows, acks)
  {
    if j < |rows| {
      var n := |rows| - 1;
      InsertedPrefix(rows[..n], acks[..n], j);
      assert rows[..n][..j] == rows[..j] && acks[..n][..j] == acks[..j];
    } else {
      assert rows[..j] == rows && acks[..j] == acks;
    }
  }

  /** The acknowledged rows, no other, in the order in which they were sent: row j stands behind as
      many as were acknowledged before it. */
  lemma InsertedRows(rows: seq<seq<Cell>>, acks: seq<Ack>, j: nat)
    requires j < |rows| == |acks| && acks[j].inserted
    ensures |Inserted(rows, acks)| == |set i | 0 <= i < |acks| && acks[i].inserted|
    ensures var before := |set i | 0 <= i < j && acks[i].inserted|;
            before < |Inserted(rows, acks)| && Inserted(rows, acks)[before] == rows[j]
  {
    InsertedCount(rows, acks);
    InsertedCount(rows[..j], acks[..j]);
    assert (set i | 0 <= i < |acks[..j]| && acks[..j][i].inserted) == set i | 0 <= i < j && acks[i].inserted;
    InsertedPrefix(rows, acks, j + 1);
    assert rows[..j + 1][..j] == rows[..j] && acks[..j + 1][..j] == acks[..j];
  }

  /** The target table, the file's records_in, the rows that were sent to the database and what it
      answered to each. */
  class Loader {
    var table: seq<seq<Cell>>
    var recordsIn: int
    ghost var handed: seq<seq<Cell>>
    var acks: seq<Ack>

    constructor (table: seq<seq<Cell>>, recordsIn: int)
      ensures this.table == table && this.recordsIn == recordsIn && handed == [] && acks == []
    {
      this.table, this.recordsIn, handed, acks := table, recordsIn, [], [];
    }

    /** The loop that spells out the values of the bulk insert. */
    method BuildInsert(types: seq<string>, records: seq<seq<Cell>>) returns (panicked: bool)
      ensures panicked <==> exists r <- records :: InsertPanics(types, r)
    {
      for k := 0 to |records|
        invariant forall j :: 0 <= j < k ==> !InsertPanics(types, records[j])
      {
        for i := 0 to |records[k]|
          invariant forall j :: 0 <= j < i ==> !CellPanics(types, records[k], j)
        {
          if CellPanics(types, records[k], i) {
            assert records[k] in records && InsertPanics(types, records[k]);
            return true;
          }
        }
      }
      return false;
    }

    /** processCSV: a failed insert skips the statistics, a failed statistics update is only logged. */
    method ProcessCsv(types: seq<string>, records: seq<seq<Cell>>) returns (panicked: bool)
      modifies this
      ensures panicked <==> exists r <- records :: InsertPanics(types, r)
      ensures panicked ==> unchanged(this)
      ensures !panicked ==>
                && handed == old(handed) + records
                && |acks| == |old(acks)| + 1 && acks[..|acks| - 1] == old(acks)
                && var ack := acks[|acks| - 1];
                && table == (if ack.inserted then old(table) + records else old(table))
                && recordsIn == (if ack.inserted && ack.counted then old(recordsIn) + |records| else old(recordsIn))
    {
      panicked := BuildInsert(types, records);
      if panicked {
        return;
      }
      handed := handed + records;
      var inserted: bool, counted: bool := *, *;
      acks := acks + [Ack(inserted, counted)];
      if !inserted {
        return;
      }
      table := table + records;
      if counted {
        recordsIn := recordsIn + |records|;
      }
    }
  }

  /** The rows of records[lo..hi], each transformed under its own map order. */
  function LoadedRows(records: seq<seq<string>>, lo: nat, hi: nat, columns: seq<Column>,
                      orders: seq<seq<Rule>>, go: Interpreter): (rows: seq<seq<Cell>>)
    requires lo <= hi <= |records| == |orders|
    ensures |rows| == hi - lo
  {
    if lo == hi then []
    else LoadedRows(records, lo, hi - 1, columns, orders, go)
         + [LoadedRow(records[hi - 1], columns, orders[hi - 1], go).0]
  }

  lemma LoadedNone(records: seq<seq<string>>, lo: nat, columns: seq<Column>, orders: seq<seq<Rule>>, go: Interpreter)
    requires lo <= |records| == |orders|
    ensures LoadedRows(records, lo, lo, columns, orders, go) == []
  {
  }

  lemma LoadedOneMore(records: seq<seq<string>>, lo: nat, hi: nat, columns: seq<Column>, orders: seq<seq<Rule>>,
      go: Interpreter)
    requires lo <= hi < |records| == |orders|
    ensures LoadedRows(records, lo, hi + 1, columns, orders, go)
            == LoadedRows(records, lo, hi, columns, orders, go) + [LoadedRow(records[hi], columns, orders[hi], go).0]
  {
  }

  /** The loader's fields after `rows` were handed to it one at a time. */
  ghost predicate Progress(table0: seq<seq<Cell>>, count0: int, rows: seq<seq<Cell>>,
                           table: seq<seq<Cell>>, count: int, acks: seq<Ack>) {
    |acks| == |rows| && table == table0 + Inserted(rows, acks) && count == count0 + Counted(acks)
  }

  lemma ProgressStart(table: seq<seq<Cell>>, count: int)
    ensures Progress(table, count, [], table, count, [])
  {
  }

  lemma ProgressStep(table0: seq<seq<Cell>>, count0: int, rows: seq<seq<Cell>>,
                     table: seq<seq<Cell>>, count: int, acks: seq<Ack>, row: seq<Cell>, ack: Ack)
    requires Progress(table0, count0, rows, table, count, acks)
    ensures Progress(table0, count0, rows + [row], if ack.inserted then table + [row] else table,
                     if ack.inserted && ack.counted then count + 1 else count, acks + [ack])
  {
    var all, answers := rows + [row], acks + [ack];
    assert all[..|rows|] == rows && answers[..|rows|] == acks;
    assert table0 + (Inserted(rows, acks) + [row]) == table + [row];
  }

  /** One pass through the loop body behind the header. */
  method ExtractRecord(record: seq<string>, columns: seq<Column>, order: seq<Rule>, go: Interpreter, loader: Loader)
    returns (panicked: bool)
    modifies loader
    ensures panicked <==> LoadedRow(record, columns, order, go).1.Panicked?
    ensures panicked ==> unchanged(loader)
    ensures !panicked ==>
              && loader.handed == old(loader.handed) + [LoadedRow(record, columns, order, go).0]
              && |loader.acks| == |old(loader.acks)| + 1 && loader.acks[..|old(loader.acks)|] == old(loader.acks)
              && var ack := loader.acks[|old(loader.acks)|];
              && loader.table == (if ack.inserted then old(loader.table) + [LoadedRow(record, columns, order, go).0]
                                  else old(loader.table))
              && loader.recordsIn == (if ack.inserted && ack.counted then old(loader.recordsIn) + 1
                                      else old(loader.recordsIn))
  {
    var row;
    row, panicked := GetCsvRow(record, columns);
    if panicked {
      return;
    }
    var outcome := RunRules(Names(columns), row, order, go);
    if outcome.Panicked? {
      return true;
    }
    panicked := loader.ProcessCsv(Types(columns), [row[..]]);
    assert row[..] in [row[..]];
  }

  /** records[lo..hi] went through the loader. */
  ghost predicate Extracted(table0: seq<seq<Cell>>, count0: int, records: seq<seq<string>>, lo: nat, hi: nat,
                            columns: seq<Column>, orders: seq<seq<Rule>>, go: Interpreter,
                            table: seq<seq<Cell>>, count: int, acks: seq<Ack>)
    requires lo <= hi <= |records| == |orders|
  {
    && (forall k :: lo <= k < hi ==> !LoadedRow(records[k], columns, orders[k], go).1.Panicked?)
    && Progress(table0, count0, LoadedRows(records, lo, hi, columns, orders, go), table, count, acks)
  }

  lemma ExtractedNone(records: seq<seq<string>>, lo: nat, columns: seq<Column>, orders: seq<seq<Rule>>, go: Interpreter,
                      table: seq<seq<Cell>>, count: int)
    requires lo <= |records| == |orders|
    ensures Extracted(table, count, records, lo, lo, columns, orders, go, table, count, [])
  {
    LoadedNone(records, lo, columns, orders, go);
    ProgressStart(table, count);
  }

  lemma ExtractedOneMore(table0: seq<seq<Cell>>, count0: int, records: seq<seq<string>>, lo: nat, hi: nat,
                         columns: seq<Column>, orders: seq<seq<Rule>>, go: Interpreter,
                         table: seq<seq<Cell>>, count: int, acks: seq<Ack>, ack: Ack)
    requires lo <= hi < |records| == |orders|
    requires Extracted(table0, count0, records, lo, hi, columns, orders, go, table, count, acks)
    requires !LoadedRow(records[hi], columns, orders[hi], go).1.Panicked?
    ensures Extracted(table0, count0, records, lo, hi + 1, columns, orders, go,
                      if ack.inserted then table + [LoadedRow(records[hi], columns, orders[hi], go).0] else table,
                      if ack.inserted && ack.counted then count + 1 else count, acks + [ack])
  {
    hide LoadedRow, Progress, LoadedRows;
    LoadedOneMore(records, lo, hi, columns, orders, go);
    ProgressStep(table0, count0, LoadedRows(records, lo, hi, columns, orders, go), table, count, acks,
                 LoadedRow(records[hi], columns, orders[hi], go).0, ack);
  }

  /** The rows handed over are those of records[lo..hi]. */
  ghost predicate Handed(records: seq<seq<string>>, lo: nat, hi: nat, columns: seq<Column>, orders: seq<seq<Rule>>,
                         go: Interpreter, handed: seq<seq<Cell>>)
    requires lo <= hi <= |records| == |orders|
  {
    && |handed| == hi - lo
    && forall j :: 0 <= j < hi - lo ==> handed[j] == LoadedRow(records[lo + j], columns, orders[lo + j], go).0
  }

  lemma {:induction false} HandedAreLoaded(records: seq<seq<string>>, lo: nat, hi: nat, columns: seq<Column>,
                                           orders: seq<seq<Rule>>, go: Interpreter, handed: seq<seq<Cell>>)
    requires lo <= hi <= |records| == |orders| && Handed(records, lo, hi, columns, orders, go, handed)
    ensures LoadedRows(records, lo, hi, columns, orders, go) == handed
    decreases hi
  {
    hide LoadedRow;
    if lo < hi {
      HandedAreLoaded(records, lo, hi - 1, columns, orders, go, handed[..hi - 1 - lo]);
      assert handed == handed[..hi - 1 - lo] + [handed[hi - 1 - lo]];
    }
  }

  lemma ExtractedMeans(table0: seq<seq<Cell>>, count0: int, records: seq<seq<string>>, lo: nat, hi: nat,
                       columns: seq<Column>, orders: seq<seq<Rule>>, go: Interpreter,
                       table: seq<seq<Cell>>, count: int, acks: seq<Ack>, handed: seq<seq<Cell>>)
    requires lo <= hi <= |records| == |orders|
    requires Extracted(table0, count0, records, lo, hi, columns, orders, go, table, count, acks)
    requires Handed(records, lo, hi, columns, orders, go, handed)
    ensures |handed| == |acks| == hi - lo && table == table0 + Inserted(handed, acks) && count == count0 + Counted(acks)
    ensures (forall a <- acks :: a.inserted) ==> table == table0 + handed
    ensures (forall a <- acks :: a.inserted && a.counted) ==> count == count0 + |handed|
    ensures handed == LoadedRows(records, lo, hi, columns, orders, go)
    ensures forall k :: lo <= k < hi ==> !LoadedRow(records[k], columns, orders[k], go).1.Panicked?
  {
    hide LoadedRow;
    HandedAreLoaded(records, lo, hi, columns, orders, go, handed);
    if forall a <- acks :: a.inserted {
      AcknowledgedRowsAreLoaded(handed, acks);
    }
  }

  /** The first `skip` records are passed over and every later one is handed to the database, one row
      a record and in the file's order, until the file ends or a record panics in the row builder,
      in a transform or in the insert. `done` records were passed. What the database acknowledges is
      in the table and in the counter. */
  method ExtractCsv(records: seq<seq<string>>, skip: int, columns: seq<Column>, orders: seq<seq<Rule>>,
                    go: Interpreter, loader: Loader) returns (done: nat)
    requires |orders| == |records| && loader.acks == [] && loader.handed == []
    modifies loader
    ensures done <= |records| && (skip <= done || done == |records|)
    ensures done == |records| <==>
              forall k :: 0 <= k < |records| && skip <= k ==> !LoadedRow(records[k], columns, orders[k], go).1.Panicked?
    ensures done < |records| ==> LoadedRow(records[done], columns, orders[done], go).1.Panicked?
    ensures forall k :: 0 <= k < done && skip <= k ==> !LoadedRow(records[k], columns, orders[k], go).1.Panicked?
    ensures |loader.handed| == |loader.acks|
            == if skip <= 0 then done else if skip <= done then done - skip else 0
    ensures var k := if skip <= 0 then 0 else skip;
            forall j :: 0 <= j < |loader.handed| ==>
              k + j < done && loader.handed[j] == LoadedRow(records[k + j], columns, orders[k + j], go).0
    ensures loader.table == old(loader.table) + Inserted(loader.handed, loader.acks)
    ensures loader.recordsIn == old(loader.recordsIn) + Counted(loader.acks)
    ensures (forall a <- loader.acks :: a.inserted) ==> loader.table == old(loader.table) + loader.handed
    ensures (forall a <- loader.acks :: a.inserted && a.counted) ==>
              loader.recordsIn == old(loader.recordsIn) + |loader.handed|
    ensures var h := if skip <= 0 then 0 else if skip <= |records| then skip else |records|;
            h <= done && loader.handed == LoadedRows(records, h, done, columns, orders, go)
  {
    hide LoadedRow, Extracted, LoadedRows, Inserted, Counted;
    ghost var h: nat := if skip <= 0 then 0 else if skip <= |records| then skip else |records|;
    ghost var table0, count0 := loader.table, loader.recordsIn;
    ExtractedNone(records, h, columns, orders, go, table0, count0);
    var recordsRead := 0;
    while recordsRead < |records|
      invariant recordsRead <= |records|
      invariant Extracted(table0, count0, records, h, if recordsRead < h then h else recordsRead,
                          columns, orders, go, loader.table, loader.recordsIn, loader.acks)
      invariant Handed(records, h, if recordsRead < h then h else recordsRead, columns, orders, go, loader.handed)
    {
      recordsRead := recordsRead + 1;
      if recordsRead > skip {
        ghost var k := recordsRead - 1;
        ghost var table, count, acks := loader.table, loader.recordsIn, loader.acks;
        var panicked := ExtractRecord(records[recordsRead - 1], columns, orders[recordsRead - 1], go, loader);
        if panicked {
          ExtractedMeans(table0, count0, records, h, k, columns, orders, go, loader.table, loader.recordsIn,
                         loader.acks, loader.handed);
          return recordsRead - 1;
        }
        ExtractedOneMore(table0, count0, records, h, k, columns, orders, go, table, count, acks, loader.acks[|acks|]);
        assert loader.acks == acks + [loader.acks[|acks|]];
      }
    }
    ExtractedMeans(table0, count0, records, h, recordsRead, columns, orders, go, loader.table, loader.recordsIn,
                   loader.acks, loader.handed);
    return recordsRead;
  }

  // ---- theorems ----

  /** The cell a path stands for in a record: nil if it is no number. */
  function RawCell(record: seq<string>): string -> Cell {
    (path: string) =>
      match CsvCell(record, path)
      case Some(cell) => cell
      case None => Null
  }

  /** A rule lets a record load: its path is a field of the record; or it is no number, and nobody
      wants a string there. */
  predicate RuleLoads(r: Rule, record: seq<string>) {
    match CsvCell(record, r.columnPath)
    case None => false
    case Some(cell) => cell.Text? || (!Effective(r) && !IsTextType(r.columnType))
  }

  ghost predicate RowLoads(rules: seq<Rule>, record: seq<string>) {
    forall r <- rules :: RuleLoads(r, record)
  }

  lemma PanicOfRule(r: Rule, names: seq<string>, types: seq<string>, row: seq<Cell>, raw: string -> Cell,
                    go: Interpreter, i: nat)
    requires |names| == |row| == |types| && Distinct(names) && i < |names| && names[i] == r.columnName
    requires CellMeans(r, names, row, raw, go)
    requires exists k :: 0 <= k < |names| && names[k] == r.columnName && types[k] == r.columnType
    ensures CellPanics(types, row, i) <==> IsTextType(r.columnType) && !raw(r.columnPath).Text?
  {
    hide Applied, IsTextType;
  }

  /** The insert panics exactly at a text column without text. */
  lemma InsertPanicsExactly(rules: seq<Rule>, names: seq<string>, types: seq<string>, row: seq<Cell>,
                            raw: string -> Cell, go: Interpreter)
    requires RowMeans(rules, names, row, raw, go) && TypesMatch(rules, names, types)
    ensures InsertPanics(types, row) <==> exists r <- rules :: IsTextType(r.columnType) && !raw(r.columnPath).Text?
  {
    hide CellMeans, CellPanics, IsTextType;
    if i :| 0 <= i < |row| && CellPanics(types, row, i) {
      assert names[i] in names;
      var r :| r in rules && r.columnName == names[i];
      PanicOfRule(r, names, types, row, raw, go, i);
    }
    if r :| r in rules && IsTextType(r.columnType) && !raw(r.columnPath).Text? {
      var i :| 0 <= i < |names| && names[i] == r.columnName && types[i] == r.columnType;
      PanicOfRule(r, names, types, row, raw, go, i);
    }
  }

  /** The row builder's panic does not depend on the order of the columns. */
  lemma RowIsBuilt(rules: seq<Rule>, columns: seq<Column>, record: seq<string>)
    requires multiset(columns) == multiset(Columns(rules))
    ensures CsvRow(record, columns).Some? <==> forall r <- rules :: CsvCell(record, r.columnPath).Some?
    ensures CsvRow(record, columns).Some? ==>
              Arranged(rules, columns, CsvRow(record, columns).value, RawCell(record))
  {
    hide CsvCell;
    forall c <- columns ensures exists r <- rules :: r.columnPath == c.path {
      assert c in multiset(Columns(rules));
      var k :| 0 <= k < |rules| && ColumnOf(rules[k]) == c;
      assert rules[k] in rules;
    }
    forall r <- rules ensures exists c <- columns :: c.path == r.columnPath {
      var k :| 0 <= k < |rules| && rules[k] == r;
      assert Columns(rules)[k] == ColumnOf(r);
      assert ColumnOf(r) in multiset(columns);
    }
  }

  /** Whatever order the map is iterated in for the columns and again for the transforms, and
      however the sort breaks ties: a record loads exactly when every rule lets it, and panics
      otherwise; and a row that loads maps every rule's column to the rule's transform of
      record[Atoi(path)], with the rule's type at the same index. */
  lemma CsvRowMeaning(rules: seq<Rule>, columnOrder: seq<Rule>, columns: seq<Column>, order: seq<Rule>,
                      record: seq<string>, go: Interpreter)
    requires UniqueBy(rules, RuleColumn) && forall r <- rules :: Resolves(r, go)
    requires multiset(columnOrder) == multiset(rules) && multiset(order) == multiset(rules)
    requires SortedFrom(Columns(columnOrder), columns)
    ensures LoadedRow(record, columns, order, go).1 == if RowLoads(rules, record) then Finished else Panicked
    ensures RowLoads(rules, record) ==>
              RowMeans(rules, Names(columns), LoadedRow(record, columns, order, go).0, RawCell(record), go)
    ensures TypesMatch(rules, Names(columns), Types(columns))
  {
    hide SortedFrom, Names, Types, UniqueBy, RowMeans, TypesMatch, Columns, CsvRow, Resolves, Arranged, CsvCell,
      LoadedRow;
    SortedColumns(rules, columnOrder, columns);
    RowIsBuilt(rules, columns, record);
    ColumnTypes(rules, columns);
    if CsvRow(record, columns).Some? {
      BuiltRowMeaning(rules, columns, order, record, go);
    } else {
      NotBuilt(rules, columns, order, record, go);
    }
  }

  lemma NotBuilt(rules: seq<Rule>, columns: seq<Column>, order: seq<Rule>, record: seq<string>, go: Interpreter)
    requires CsvRow(record, columns).None? && exists r <- rules :: CsvCell(record, r.columnPath).None?
    ensures LoadedRow(record, columns, order, go).1.Panicked? && !RowLoads(rules, record)
  {
    hide CsvCell;
  }

  lemma BuiltRowMeaning(rules: seq<Rule>, columns: seq<Column>, order: seq<Rule>, record: seq<string>, go: Interpreter)
    requires UniqueBy(rules, RuleColumn) && (forall r <- rules :: Resolves(r, go)) && multiset(order) == multiset(rules)
    requires forall r <- rules :: CsvCell(record, r.columnPath).Some?
    requires CsvRow(record, columns).Some? && Arranged(rules, columns, CsvRow(record, columns).value, RawCell(record))
    ensures LoadedRow(record, columns, order, go).1 == if RowLoads(rules, record) then Finished else Panicked
    ensures RowLoads(rules, record) ==>
              RowMeans(rules, Names(columns), LoadedRow(record, columns, order, go).0, RawCell(record), go)
  {
    hide Names, Types, UniqueBy, RowMeans, TypesMatch, Run, InsertPanics, CsvRow, Resolves, CsvCell, Arranged, RawCell,
      RowLoads, WantedText, IsTextType;
    var cells := CsvRow(record, columns).value;
    AlignedRowMeans(rules, columns, cells, order, RawCell(record), go);
    LoadsAre(rules, record);
    if WantedText(rules, RawCell(record)) {
      InsertPanicsExactly(rules, Names(columns), Types(columns), Run(Names(columns), cells, order, go).0,
                          RawCell(record), go);
    }
  }

  lemma ColumnTypes(rules: seq<Rule>, columns: seq<Column>)
    requires UniqueBy(rules, RuleColumn) && multiset(columns) == multiset(Columns(rules))
    ensures TypesMatch(rules, Names(columns), Types(columns))
  {
    hide UniqueBy;
    ArrangedTypes(rules, columns, Map((c: Column) => Null, columns), (path: string) => Null);
  }

  lemma LoadsAre(rules: seq<Rule>, record: seq<string>)
    requires forall r <- rules :: CsvCell(record, r.columnPath).Some?
    ensures RowLoads(rules, record) <==>
              && WantedText(rules, RawCell(record))
              && !exists r <- rules :: IsTextType(r.columnType) && !RawCell(record)(r.columnPath).Text?
  {
    hide CsvCell, Effective, IsTextType;
  }

  /** An acknowledged file loads every record behind the header once, in order, and counts it. */
  lemma {:induction false} AcknowledgedRowsAreLoaded(rows: seq<seq<Cell>>, acks: seq<Ack>)
    requires |rows| == |acks| && forall a <- acks :: a.inserted
    ensures Inserted(rows, acks) == rows
    ensures (forall a <- acks :: a.counted) ==> Counted(acks) == |rows|
  {
    if rows != [] {
      var n := |rows| - 1;
      AcknowledgedRowsAreLoaded(rows[..n], acks[..n]);
      assert rows == rows[..n] + [rows[n]];
      assert acks[n] in acks;
    }
  }

  /** Under any failures the counter never runs ahead of the table. */
  lemma {:induction false} CountedRowsAreInTable(rows: seq<seq<Cell>>, acks: seq<Ack>)
    requires |rows| == |acks|
    ensures Counted(acks) <= |Inserted(rows, acks)| <= |rows|
  {
    if rows != [] {
      CountedRowsAreInTable(rows[..|rows| - 1], acks[..|acks| - 1]);
    }
  }

  lemma SortedColumns(rules: seq<Rule>, columnOrder: seq<Rule>, columns: seq<Column>)
    requires multiset(columnOrder) == multiset(rules) && SortedFrom(Columns(columnOrder), columns)
    ensures multiset(columns) == multiset(Columns(rules)) && SortedFrom(columns, columns)
    ensures UniqueBy(rules, RulePath) ==> UniqueBy(columns, ColumnPath)
  {
    hide Less;
    MapPermuted(columnOrder, rules);
    if UniqueBy(rules, RulePath) {
      PermutationKeepsKeys(Columns(rules), columns, ColumnPath);
    }
  }

  lemma ColumnsAgree(rules: seq<Rule>, columnOrderP: seq<Rule>, columnsP: seq<Column>,
                     columnOrderQ: seq<Rule>, columnsQ: seq<Column>)
    requires multiset(columnOrderP) == multiset(rules) && SortedFrom(Columns(columnOrderP), columnsP)
    requires multiset(columnOrderQ) == multiset(rules) && SortedFrom(Columns(columnOrderQ), columnsQ)
    ensures UniqueBy(rules, RulePath) ==> columnsP == columnsQ
  {
    hide SortedFrom, UniqueBy, Columns;
    SortedColumns(rules, columnOrderP, columnsP);
    SortedColumns(rules, columnOrderQ, columnsQ);
    if UniqueBy(rules, RulePath) {
      ColumnOrderIsUnique(columnsP, columnsQ);
    }
  }

  /** One record, extracted twice with other column orders and other transform orders, loads or
      panics both times. */
  lemma RecordIsOrderFree(rules: seq<Rule>, record: seq<string>, columnOrderP: seq<Rule>, columnsP: seq<Column>,
                          p: seq<Rule>, columnOrderQ: seq<Rule>, columnsQ: seq<Column>, q: seq<Rule>, go: Interpreter)
    requires UniqueBy(rules, RuleColumn) && forall r <- rules :: Resolves(r, go)
    requires multiset(columnOrderP) == multiset(rules) && SortedFrom(Columns(columnOrderP), columnsP)
    requires multiset(columnOrderQ) == multiset(rules) && SortedFrom(Columns(columnOrderQ), columnsQ)
    requires multiset(p) == multiset(rules) && multiset(q) == multiset(rules)
    ensures LoadedRow(record, columnsP, p, go).1 == LoadedRow(record, columnsQ, q, go).1
                                                 == if RowLoads(rules, record) then Finished else Panicked
    ensures RowLoads(rules, record) ==>
              && AsMap(Names(columnsP), LoadedRow(record, columnsP, p, go).0)
                 == AsMap(Names(columnsQ), LoadedRow(record, columnsQ, q, go).0)
              && (columnsP == columnsQ ==> LoadedRow(record, columnsP, p, go) == LoadedRow(record, columnsQ, q, go))
  {
    CsvRowMeaning(rules, columnOrderP, columnsP, p, record, go);
    CsvRowMeaning(rules, columnOrderQ, columnsQ, q, record, go);
    hide LoadedRow, RowMeans, AsMap, SortedFrom, RowLoads, Names, Types;
    if RowLoads(rules, record) {
      var a, b := LoadedRow(record, columnsP, p, go).0, LoadedRow(record, columnsQ, q, go).0;
      SameMeaningSameMap(rules, Names(columnsP), a, Names(columnsQ), b, RawCell(record), go);
      if columnsP == columnsQ {
        RowMeansOnce(rules, Names(columnsP), a, b, RawCell(record), go);
      }
    }
  }

  /** Row by row one name-to-cell map. */
  ghost predicate SameMaps(p: seq<string>, a: seq<seq<Cell>>, q: seq<string>, b: seq<seq<Cell>>) {
    |a| == |b| && forall k :: 0 <= k < |a| ==> AsMap(p, a[k]) == AsMap(q, b[k])
  }

  lemma SameMapsAppend(p: seq<string>, a: seq<seq<Cell>>, x: seq<Cell>, q: seq<string>, b: seq<seq<Cell>>, y: seq<Cell>)
    requires SameMaps(p, a, q, b) && AsMap(p, x) == AsMap(q, y)
    ensures SameMaps(p, a + [x], q, b + [y])
  {
    hide AsMap;
  }

  lemma SameMapsNone(p: seq<string>, q: seq<string>)
    ensures SameMaps(p, [], q, [])
  {
  }

  /** What both extractions of a file are given. */
  ghost predicate BothOrders(rules: seq<Rule>, records: seq<seq<string>>, lo: nat, hi: nat,
                             p: seq<seq<Rule>>, q: seq<seq<Rule>>)
    requires lo <= hi <= |records| == |p| == |q|
  {
    forall k :: lo <= k < hi ==> RowLoads(rules, records[k]) && multiset(p[k]) == multiset(q[k]) == multiset(rules)
  }

  /** Two extractions of one file, each with its own map iteration and sort ties for the columns
      and its own map iterations for the transforms, load the same name-to-cell maps record by
      record; and with distinct paths the very same rows. */
  lemma {:induction false} FileIsOrderFree(rules: seq<Rule>, records: seq<seq<string>>, lo: nat, hi: nat,
                                           columnOrderP: seq<Rule>, columnsP: seq<Column>, p: seq<seq<Rule>>,
                                           columnOrderQ: seq<Rule>, columnsQ: seq<Column>, q: seq<seq<Rule>>,
                                           go: Interpreter)
    requires lo <= hi <= |records| == |p| == |q|
    requires UniqueBy(rules, RuleColumn) && forall r <- rules :: Resolves(r, go)
    requires multiset(columnOrderP) == multiset(rules) && SortedFrom(Columns(columnOrderP), columnsP)
    requires multiset(columnOrderQ) == multiset(rules) && SortedFrom(Columns(columnOrderQ), columnsQ)
    requires BothOrders(rules, records, lo, hi, p, q)
    ensures SameMaps(Names(columnsP), LoadedRows(records, lo, hi, columnsP, p, go),
                     Names(columnsQ), LoadedRows(records, lo, hi, columnsQ, q, go))
    ensures UniqueBy(rules, RulePath) ==>
              columnsP == columnsQ
              && LoadedRows(records, lo, hi, columnsP, p, go) == LoadedRows(records, lo, hi, columnsQ, q, go)
    decreases hi
  {
    hide LoadedRow, AsMap, SortedFrom, UniqueBy, RowLoads, Columns, Names, Resolves, SameMaps, LoadedRows;
    ColumnsAgree(rules, columnOrderP, columnsP, columnOrderQ, columnsQ);
    if lo == hi {
      LoadedNone(records, lo, columnsP, p, go);
      LoadedNone(records, lo, columnsQ, q, go);
      SameMapsNone(Names(columnsP), Names(columnsQ));
    } else {
      var k := hi - 1;
      FileIsOrderFree(rules, records, lo, k, columnOrderP, columnsP, p, columnOrderQ, columnsQ, q, go);
      RecordIsOrderFree(rules, records[k], columnOrderP, columnsP, p[k], columnOrderQ, columnsQ, q[k], go);
      LoadedOneMore(records, lo, k, columnsP, p, go);
      LoadedOneMore(records, lo, k, columnsQ, q, go);
      SameMapsAppend(Names(columnsP), LoadedRows(records, lo, k, columnsP, p, go),
                     LoadedRow(records[k], columnsP, p[k], go).0,
                     Names(columnsQ), LoadedRows(records, lo, k, columnsQ, q, go),
                     LoadedRow(records[k], columnsQ, q[k], go).0);
    }
  }

  // ---- header inference: handleCSV ----

  function HeaderRule(xid: string, name: string, i: nat): Rule {
    Rule(xid, "", name, Itoa(i), "TEXT", "", "")
  }

  function HeaderRules(xids: seq<string>, header: seq<string>): (rules: seq<Rule>)
    requires |xids| == |header|
    ensures |rules| == |header|
  {
    seq(|header|, i requires 0 <= i < |header| => HeaderRule(xids[i], header[i], i))
  }

  /** The loop of handleCSV; xids are distinct, so no rule replaces another in the map. */
  method HandleCsv(header: seq<string>, xids: seq<string>) returns (rulesMap: map<string, Rule>)
    requires |xids| == |header| && Distinct(xids)
    ensures rulesMap.Keys == set k | 0 <= k < |header| :: xids[k]
    ensures forall k :: 0 <= k < |header| ==>
              rulesMap[xids[k]] == Rule(xids[k], "", header[k], Itoa(k), "TEXT", "", "")
    ensures multiset(rulesMap.Values) == multiset(HeaderRules(xids, header))
  {
    rulesMap := map[];
    var i := 0;
    while i < |header|
      invariant i <= |header|
      invariant rulesMap.Keys == set k | 0 <= k < i :: xids[k]
      invariant forall k :: 0 <= k < i ==> rulesMap[xids[k]] == HeaderRules(xids, header)[k]
    {
      var er := Rule(xids[i], "", header[i], Itoa(i), "TEXT", "", "");
      rulesMap := rulesMap[er.id := er];
      i := i + 1;
    }
    ValuesAreRules(rulesMap, xids, HeaderRules(xids, header));
  }

  lemma ValuesAreRules(rulesMap: map<string, Rule>, xids: seq<string>, rules: seq<Rule>)
    requires |rules| == |xids| && rulesMap.Keys == set k | 0 <= k < |xids| :: xids[k]
    requires forall k :: 0 <= k < |xids| ==> rulesMap[xids[k]] == rules[k]
    requires forall i, j :: 0 <= i < j < |rules| ==> rules[i].id != rules[j].id
    ensures multiset(rulesMap.Values) == multiset(rules)
  {
    forall r | r in rulesMap.Values ensures r in rules {
      var x :| x in rulesMap && rulesMap[x] == r;
    }
    forall r | r in rules ensures r in rulesMap.Values {
      var k :| 0 <= k < |rules| && rules[k] == r;
      assert xids[k] in rulesMap;
    }
    assert rulesMap.Values == set r <- rules;
    DistinctSeqToSet(rules);
  }

  /** Round trip: the rules inferred from a header pass the path check and load every record of
      the header's width under the header's own names, cell by cell, although the columns are
      sorted by path text ("10" before "2"). */
  lemma HeaderRoundTrip(syntax: PathSyntax, header: seq<string>, xids: seq<string>, columnOrder: seq<Rule>,
                        columns: seq<Column>, order: seq<Rule>, record: seq<string>, go: Interpreter, i: nat)
    requires |xids| == |header| == |record| && |header| - 1 <= MAX_INT && Distinct(header) && i < |header|
    requires multiset(columnOrder) == multiset(HeaderRules(xids, header)) == multiset(order)
    requires SortedFrom(Columns(columnOrder), columns)
    ensures ValidRulePath(syntax, HeaderRules(xids, header)[i].columnPath, CSV_SCHEME)
    ensures var row := LoadedRow(record, columns, order, go);
            && row.1.Finished? && |row.0| == |columns| == |header|
            && exists k :: 0 <= k < |columns| && columns[k].name == header[i] && row.0[k] == Text(record[i])
  {
    var rules := HeaderRules(xids, header);
    HeaderRuleLoads(xids, header, record, i);
    forall r <- rules ensures RuleLoads(r, record) && Resolves(r, go) {
      var k :| 0 <= k < |header| && rules[k] == r;
      HeaderRuleLoads(xids, header, record, k);
    }
    assert rules[i] in rules && !Effective(rules[i]);
    assert UniqueBy(rules, RuleColumn);
    hide LoadedRow, SortedFrom, Columns, HeaderRules, Itoa, Atoi, CsvCell, RuleLoads;
    CsvRowMeaning(rules, columnOrder, columns, order, record, go);
    assert CellMeans(rules[i], Names(columns), LoadedRow(record, columns, order, go).0, RawCell(record), go);
  }

  lemma HeaderRuleLoads(xids: seq<string>, header: seq<string>, record: seq<string>, k: nat)
    requires |xids| == |header| == |record| && |header| - 1 <= MAX_INT && k < |header|
    ensures Atoi(HeaderRules(xids, header)[k].columnPath) == Some(k)
    ensures RuleLoads(HeaderRules(xids, header)[k], record)
    ensures RawCell(record)(HeaderRules(xids, header)[k].columnPath) == Text(record[k])
  {
    hide Atoi, Itoa;
    AtoiOfItoa(k);
  }
}
