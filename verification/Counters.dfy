/** The two counters that concurrent extract jobs keep by reading, adding and writing back: a
    file's records_in in pipeline_stats, and the "Files Processed" metric, which is text. */
module Counters {
  import opened Wrappers
  import opened Domain
  import opened Decimal

  /** Two's complement wrap-around of a 64-bit sum. */
  function Wrap(n: int): (w: int)
    ensures InRange(w)
    ensures InRange(n) ==> w == n
  {
    (n - MIN_INT) % 0x1_0000_0000_0000_0000 + MIN_INT
  }

  // ---- the metric's text ----

  const FILES_PROCESSED := "Files Processed"
  const LAST_FILE := "Last File Processed"

  /** Parse, add one, print; a value that does not parse stops the bump. */
  function BumpText(text: string): Option<string> {
    match Atoi(text)
    case None => None
    case Some(v) => Some(Itoa(Wrap(v + 1)))
  }

  /** Text makes no difference: bumping the text of n gives the text of n + 1. */
  lemma BumpTextAddsOne(n: int)
    requires InRange(n) && InRange(n + 1)
    ensures BumpText(Itoa(n)) == Some(Itoa(n + 1))
  {
    AtoiOfItoa(n);
  }

  datatype Metric = Metric(name: string, value: string)

  const MetricName := (m: Metric) => m.name

  /** UPDATE ... where name = ...: the table has no key, so it may hold several rows of one name. */
  function Assigned(rows: seq<Metric>, name: string, value: string): seq<Metric> {
    Map((m: Metric) => if m.name == name then m.(value := value) else m, rows)
  }

  /** The rows of one extract source in the metric table. */
  class MetricTable {
    var rows: seq<Metric>

    constructor (rows: seq<Metric>)
      ensures this.rows == rows
    {
      this.rows := rows;
    }

    method Update(name: string, value: string, fault: bool) returns (ok: bool)
      modifies this
      ensures ok == !fault
      ensures rows == if ok then Assigned(old(rows), name, value) else old(rows)
    {
      ok := !fault;
      if ok {
        rows := Assigned(rows, name, value);
      }
    }
  }

  /** The two metrics that extract jobs write. */
  predicate IsKept(name: string) {
    name == FILES_PROCESSED || name == LAST_FILE
  }

  /** What the bump makes of one metric. */
  function Bumped(m: Metric, fileName: string): Option<string> {
    if m.name == FILES_PROCESSED then BumpText(m.value)
    else if m.name == LAST_FILE then Some(fileName)
    else Some(m.value)
  }

  /** The last of the metrics read that has the name. */
  function LastRead(read: seq<Metric>, name: string): (m: Option<Metric>)
    ensures m.Some? ==> m.value in read && m.value.name == name
    ensures m.None? ==> forall r <- read :: r.name != name
  {
    if read == [] then None
    else if read[|read| - 1].name == name then Some(read[|read| - 1])
    else LastRead(read[..|read| - 1], name)
  }

  /** Row by row: a kept metric that was read holds the bump of its last reading, every other row
      is as it was. */
  ghost predicate BumpedBy(was: seq<Metric>, now: seq<Metric>, read: seq<Metric>, fileName: string) {
    |now| == |was| && forall i :: 0 <= i < |was| ==> RowBumped(was[i], now[i], read, fileName)
  }

  ghost predicate RowBumped(was: Metric, now: Metric, read: seq<Metric>, fileName: string) {
    && now.name == was.name
    && if IsKept(was.name) && LastRead(read, was.name).Some?
       then Some(now.value) == Bumped(LastRead(read, was.name).value, fileName)
       else now.value == was.value
  }

  lemma RowStep(was: Metric, now: Metric, read: seq<Metric>, m: Metric, fileName: string)
    requires RowBumped(was, now, read, fileName) && Bumped(m, fileName).Some?
    ensures now.name == m.name && IsKept(m.name) ==>
              RowBumped(was, now.(value := Bumped(m, fileName).value), read + [m], fileName)
    ensures now.name != m.name || !IsKept(m.name) ==> RowBumped(was, now, read + [m], fileName)
  {
    assert (read + [m])[..|read|] == read;
  }

  lemma BumpedStep(was: seq<Metric>, now: seq<Metric>, read: seq<Metric>, m: Metric, fileName: string)
    requires BumpedBy(was, now, read, fileName) && Bumped(m, fileName).Some?
    ensures BumpedBy(was, if IsKept(m.name) then Assigned(now, m.name, Bumped(m, fileName).value) else now,
                     read + [m], fileName)
  {
    hide RowBumped, Bumped, IsKept;
    forall i | 0 <= i < |was|
      ensures RowBumped(was[i], if IsKept(m.name) && now[i].name == m.name
                                then now[i].(value := Bumped(m, fileName).value) else now[i], read + [m], fileName)
    {
      RowStep(was[i], now[i], read, m, fileName);
    }
  }

  /** The loop stops at a row whose count does not parse or whose update the database refuses. */
  predicate Stops(m: Metric, fault: bool) {
    (m.name == FILES_PROCESSED && BumpText(m.value).None?) || (IsKept(m.name) && fault)
  }

  /** One pass of the loop. */
  method BumpRow(table: MetricTable, m: Metric, fileName: string, fault: bool) returns (ok: bool)
    modifies table
    ensures ok <==> !Stops(m, fault)
    ensures ok ==> Bumped(m, fileName).Some?
    ensures table.rows == if ok && IsKept(m.name) then Assigned(old(table.rows), m.name, Bumped(m, fileName).value)
                          else old(table.rows)
  {
    hide Assigned, Decimal.Atoi, Decimal.Itoa, Wrap;
    ok := true;
    if m.name == FILES_PROCESSED {
      var v := Atoi(m.value);
      if v.None? {
        return false;
      }
      ok := table.Update(m.name, Itoa(Wrap(v.value + 1)), fault);
    } else if m.name == LAST_FILE {
      ok := table.Update(m.name, fileName, fault);
    }
  }

  /** bumpMetric on a table nobody else touches, with the rows read in any order: the readings
      before the first one that stops the loop are bumped and written, and no other. */
  method BumpMetric(table: MetricTable, read: seq<Metric>, fileName: string, faults: nat -> bool) returns (done: nat)
    modifies table
    ensures done <= |read|
    ensures forall k :: 0 <= k < |read| && k <= done ==>
              (k == done <==> || (read[k].name == "Files Processed" && (faults(k) || Atoi(read[k].value).None?))
                              || (read[k].name == "Last File Processed" && faults(k)))
    ensures BumpedBy(old(table.rows), table.rows, read[..done], fileName)
    ensures done == |read| && multiset(read) == multiset(old(table.rows)) && UniqueBy(old(table.rows), MetricName) ==>
              && |table.rows| == |old(table.rows)|
              && forall i :: 0 <= i < |table.rows| ==>
                   && table.rows[i].name == old(table.rows[i].name)
                   && (old(table.rows[i].name) == "Files Processed" ==>
                         forall n :: InRange(n) && InRange(n + 1) && old(table.rows[i].value) == Itoa(n) ==>
                           table.rows[i].value == Itoa(n + 1))
                   && (old(table.rows[i].name) == "Last File Processed" ==> table.rows[i].value == fileName)
                   && (old(table.rows[i].name) !in {"Files Processed", "Last File Processed"} ==>
                         table.rows[i] == old(table.rows[i]))
  {
    ghost var was := table.rows;
    hide RowBumped, Stops, Bumped, IsKept, Assigned, Decimal.Atoi, Decimal.Itoa;
    assert BumpedBy(was, was, [], fileName) by { BumpedNone(was, fileName); }
    forall k: nat | k < |read|
      ensures Stops(read[k], faults(k)) <==>
                || (read[k].name == "Files Processed" && (faults(k) || Atoi(read[k].value).None?))
                || (read[k].name == "Last File Processed" && faults(k))
    {
      StopsExactly(read[k], faults(k));
    }
    assert read[..|read|] == read;
    for i := 0 to |read|
      invariant BumpedBy(was, table.rows, read[..i], fileName)
      invariant forall k :: 0 <= k < i ==> !Stops(read[k], faults(k))
    {
      hide BumpedBy;
      assert read[..i + 1] == read[..i] + [read[i]];
      ghost var before := table.rows;
      var ok := BumpRow(table, read[i], fileName, faults(i));
      if !ok {
        return i;
      }
      BumpedStep(was, before, read[..i], read[i], fileName);
    }
    UniqueRowsRead(was, table.rows, read, fileName);
    return |read|;
  }

  lemma BumpedNone(was: seq<Metric>, fileName: string)
    ensures BumpedBy(was, was, [], fileName)
  {
  }

  lemma OwnReading(was: seq<Metric>, read: seq<Metric>, i: nat)
    requires multiset(read) == multiset(was) && i < |was|
    ensures LastRead(read, was[i].name).Some?
    ensures UniqueBy(was, MetricName) ==> LastRead(read, was[i].name) == Some(was[i])
  {
    hide LastRead;
    assert was[i] in multiset(read);
    var m := LastRead(read, was[i].name).value;
    assert m in multiset(was);
    var k :| 0 <= k < |was| && was[k] == m;
    assert MetricName(was[k]) == MetricName(was[i]);
  }

  lemma SameNameSameValue(a: Metric, b: Metric, nowA: Metric, nowB: Metric, read: seq<Metric>, fileName: string)
    requires RowBumped(a, nowA, read, fileName) && RowBumped(b, nowB, read, fileName)
    requires a.name == b.name && IsKept(a.name) && LastRead(read, a.name).Some?
    ensures nowA.value == nowB.value && Some(nowA.value) == Bumped(LastRead(read, a.name).value, fileName)
  {
    hide Bumped, IsKept, LastRead;
  }

  /** With one row a name each kept metric is bumped from its own value; in any case all rows of
      one kept name end up alike. */
  lemma UniqueRowsBumpTheirOwn(was: seq<Metric>, now: seq<Metric>, read: seq<Metric>, fileName: string, i: nat)
    requires multiset(read) == multiset(was) && BumpedBy(was, now, read, fileName) && i < |was| && IsKept(was[i].name)
    ensures UniqueBy(was, MetricName) ==> Some(now[i].value) == Bumped(was[i], fileName)
    ensures forall j :: 0 <= j < |was| && was[j].name == was[i].name ==> now[j].value == now[i].value
  {
    hide Bumped, RowBumped, IsKept, LastRead, UniqueBy;
    OwnReading(was, read, i);
    SameNameSameValue(was[i], was[i], now[i], now[i], read, fileName);
    forall j | 0 <= j < |was| && was[j].name == was[i].name ensures now[j].value == now[i].value {
      SameNameSameValue(was[j], was[i], now[j], now[i], read, fileName);
    }
  }

  // ---- what is written, in the texts themselves ----

  lemma StopsExactly(m: Metric, fault: bool)
    ensures Stops(m, fault) <==>
              || (m.name == "Files Processed" && (fault || Atoi(m.value).None?))
              || (m.name == "Last File Processed" && fault)
  {
    hide Decimal.Atoi, Decimal.Itoa;
  }

  lemma {:induction false} LastReadIs(read: seq<Metric>, k: nat)
    requires k < |read| && forall j :: k < j < |read| ==> read[j].name != read[k].name
    ensures LastRead(read, read[k].name) == Some(read[k])
  {
    var n := |read| - 1;
    if k < n {
      LastReadIs(read[..n], k);
    }
  }

  /** The count behind the largest one is the smallest one. */
  lemma BumpedCount(m: Metric, fileName: string)
    requires m.name == "Files Processed" && Atoi(m.value).Some?
    ensures var v := Atoi(m.value).value;
            Bumped(m, fileName)
            == Some(Itoa(if v == 0x7FFF_FFFF_FFFF_FFFF then -0x8000_0000_0000_0000 else v + 1))
  {
    hide Decimal.Atoi, Decimal.Itoa;
  }

  /** Row by row, whatever rows there are and whatever was read: every row keeps its name. A row of
      one of the two names holds the file's name, or one more than the last count read under its
      name; rows of other names, or of a name that was not read, are as they were. */
  lemma BumpWrites(was: seq<Metric>, now: seq<Metric>, read: seq<Metric>, fileName: string, i: nat)
    requires BumpedBy(was, now, read, fileName) && i < |was|
    requires forall m <- read :: m.name == "Files Processed" ==> Atoi(m.value).Some?
    ensures |now| == |was| && now[i].name == was[i].name
    ensures was[i].name !in {"Files Processed", "Last File Processed"} ==> now[i] == was[i]
    ensures (forall m <- read :: m.name != was[i].name) ==> now[i] == was[i]
    ensures was[i].name == "Last File Processed" && (exists m <- read :: m.name == was[i].name) ==>
              now[i].value == fileName
    ensures forall k :: && 0 <= k < |read| && read[k].name == was[i].name == "Files Processed"
                        && (forall j :: k < j < |read| ==> read[j].name != read[k].name) ==>
              var v := Atoi(read[k].value).value;
              now[i].value == Itoa(if v == 0x7FFF_FFFF_FFFF_FFFF then -0x8000_0000_0000_0000 else v + 1)
  {
    hide Decimal.Atoi, Decimal.Itoa, BumpText, LastRead;
    assert RowBumped(was[i], now[i], read, fileName);
    assert LastRead(read, was[i].name).Some? ==> LastRead(read, was[i].name).value in read;
    forall k: nat | && k < |read| && read[k].name == was[i].name == "Files Processed"
                    && (forall j :: k < j < |read| ==> read[j].name != read[k].name)
      ensures Atoi(read[k].value).Some?
      ensures var v := Atoi(read[k].value).value;
              now[i].value == Itoa(if v == 0x7FFF_FFFF_FFFF_FFFF then -0x8000_0000_0000_0000 else v + 1)
    {
      assert read[k] in read;
      LastReadIs(read, k);
      BumpedCount(read[k], fileName);
    }
  }

  lemma UniqueRowsRead(was: seq<Metric>, now: seq<Metric>, read: seq<Metric>, fileName: string)
    requires BumpedBy(was, now, read, fileName)
    ensures multiset(read) == multiset(was) && UniqueBy(was, MetricName) ==>
              && |now| == |was|
              && forall i :: 0 <= i < |was| ==>
                   && now[i].name == was[i].name
                   && (was[i].name == "Files Processed" ==>
                         forall n :: InRange(n) && InRange(n + 1) && was[i].value == Itoa(n) ==>
                           now[i].value == Itoa(n + 1))
                   && (was[i].name == "Last File Processed" ==> now[i].value == fileName)
                   && (was[i].name !in {"Files Processed", "Last File Processed"} ==> now[i] == was[i])
  {
    hide Decimal.Atoi, Decimal.Itoa, BumpText, LastRead;
    if multiset(read) == multiset(was) && UniqueBy(was, MetricName) {
      forall i: nat | i < |was|
        ensures now[i].name == was[i].name
        ensures was[i].name == "Files Processed" ==>
                  forall n :: InRange(n) && InRange(n + 1) && was[i].value == Itoa(n) ==> now[i].value == Itoa(n + 1)
        ensures was[i].name == "Last File Processed" ==> now[i].value == fileName
        ensures was[i].name !in {"Files Processed", "Last File Processed"} ==> now[i] == was[i]
      {
        OwnReading(was, read, i);
        assert RowBumped(was[i], now[i], read, fileName);
        forall n | InRange(n) && InRange(n + 1) ensures BumpText(Itoa(n)) == Some(Itoa(n + 1)) {
          BumpTextAddsOne(n);
        }
      }
    }
  }

  // ---- concurrent jobs on one counter ----

  /** A job whose insert was refused, or that has inserted its rows, read the counter, or written
      it; or that gave up on the counter after its insert. */
  datatype Job = Refused | Ready(rows: nat) | Loaded(rows: nat, seen: int) | Stored(rows: nat) | GaveUp

  datatype State = State(value: int, inserted: nat, stored: nat, writes: nat, jobs: map<nat, Job>)

  ghost predicate Init(s: State) {
    s.inserted == 0 && s.stored == 0 && s.writes == 0 && s.jobs == map[]
  }

  /** A failed insert skips the statistics. */
  ghost predicate Insert(s: State, s': State, j: nat, rows: nat, ok: bool) {
    j !in s.jobs
    && s' == if ok then s.(inserted := s.inserted + rows, jobs := s.jobs[j := Ready(rows)])
             else s.(jobs := s.jobs[j := Refused])
  }

  ghost predicate Load(s: State, s': State, j: nat) {
    j in s.jobs && s.jobs[j].Ready? && s' == s.(jobs := s.jobs[j := Loaded(s.jobs[j].rows, s.value)])
  }

  ghost predicate Store(s: State, s': State, j: nat) {
    j in s.jobs && s.jobs[j].Loaded?
    && s' == s.(value := Wrap(s.jobs[j].seen + s.jobs[j].rows), stored := s.stored + s.jobs[j].rows,
                writes := s.writes + 1, jobs := s.jobs[j := Stored(s.jobs[j].rows)])
  }

  /** A failed read or upsert, or a crash. */
  ghost predicate GiveUp(s: State, s': State, j: nat) {
    j in s.jobs && (s.jobs[j].Ready? || s.jobs[j].Loaded?) && s' == s.(jobs := s.jobs[j := GaveUp])
  }

  ghost predicate Next(s: State, s': State) {
    || (exists j, rows, ok :: Insert(s, s', j, rows, ok))
    || (exists j :: Load(s, s', j))
    || (exists j :: Store(s, s', j))
    || (exists j :: GiveUp(s, s', j))
  }

  ghost predicate Run(tr: seq<State>) {
    && tr != [] && Init(tr[0])
    && forall i :: 0 <= i < |tr| - 1 ==> Next(tr[i], tr[i + 1])
  }

  /** Rows that jobs have inserted and may still store. */
  ghost function Outstanding(jobs: map<nat, Job>): nat {
    if jobs == map[] then 0
    else
      assert jobs.Keys != {};
      var j :| j in jobs;
      Due(jobs[j]) + Outstanding(jobs - {j})
  }

  function Due(job: Job): nat {
    match job
    case Ready(rows) => rows
    case Loaded(rows, _) => rows
    case _ => 0
  }

  ghost predicate NoneGaveUp(jobs: map<nat, Job>) {
    forall j <- jobs :: !jobs[j].GaveUp?
  }

  lemma {:induction false} OutstandingAt(jobs: map<nat, Job>, k: nat)
    requires k in jobs
    ensures Outstanding(jobs) == Due(jobs[k]) + Outstanding(jobs - {k})
    decreases |jobs|
  {
    assert jobs.Keys != {};
    var j :| j in jobs && Outstanding(jobs) == Due(jobs[j]) + Outstanding(jobs - {j});
    if j != k {
      OutstandingAt(jobs - {j}, k);
      OutstandingAt(jobs - {k}, j);
      assert jobs - {j} - {k} == jobs - {k} - {j};
    }
  }

  lemma OutstandingUpdate(jobs: map<nat, Job>, k: nat, job: Job)
    ensures Outstanding(jobs[k := job]) == Due(job) + Outstanding(jobs - {k})
    ensures Outstanding(jobs) == (if k in jobs then Due(jobs[k]) else 0) + Outstanding(jobs - {k})
    ensures NoneGaveUp(jobs[k := job]) && (k in jobs ==> !jobs[k].GaveUp?) ==> NoneGaveUp(jobs)
  {
    assert forall i <- jobs :: i != k ==> jobs[k := job][i] == jobs[i];
    OutstandingAt(jobs[k := job], k);
    assert jobs[k := job] - {k} == jobs - {k};
    if k in jobs {
      OutstandingAt(jobs, k);
    } else {
      assert jobs - {k} == jobs;
    }
  }

  ghost predicate Inv(s: State, start: int) {
    && s.stored + Outstanding(s.jobs) <= s.inserted
    && (NoneGaveUp(s.jobs) ==> s.stored + Outstanding(s.jobs) == s.inserted)
    && (start <= s.value <= start + s.stored)
    && (forall j <- s.jobs :: s.jobs[j].Loaded? ==> start <= s.jobs[j].seen <= start + s.stored)
  }

  lemma InsertKeepsInv(s: State, s': State, start: int, j: nat, rows: nat, ok: bool)
    requires Inv(s, start) && Insert(s, s', j, rows, ok)
    ensures Inv(s', start) && s.inserted <= s'.inserted
  {
    OutstandingUpdate(s.jobs, j, s'.jobs[j]);
    hide Outstanding, NoneGaveUp;
  }

  lemma NextKeepsInv(s: State, s': State, start: int)
    requires Inv(s, start) && Next(s, s') && InRange(start) && start + s'.inserted <= MAX_INT
    ensures Inv(s', start) && s.inserted <= s'.inserted
  {
    hide Outstanding, Wrap, NoneGaveUp;
    if j, rows, ok :| Insert(s, s', j, rows, ok) {
      InsertKeepsInv(s, s', start, j, rows, ok);
    } else if j :| Load(s, s', j) {
      OutstandingUpdate(s.jobs, j, s'.jobs[j]);
    } else if j :| Store(s, s', j) {
      OutstandingUpdate(s.jobs, j, s'.jobs[j]);
    } else {
      var j :| GiveUp(s, s', j);
      OutstandingUpdate(s.jobs, j, s'.jobs[j]);
      assert !NoneGaveUp(s'.jobs) by { GaveUpShows(s'.jobs, j); }
    }
  }

  lemma GaveUpShows(jobs: map<nat, Job>, j: nat)
    requires j in jobs && jobs[j].GaveUp?
    ensures !NoneGaveUp(jobs)
  {
  }

  lemma {:induction false} InsertedGrows(tr: seq<State>, i: nat, j: nat)
    requires Run(tr) && i <= j < |tr|
    ensures tr[i].inserted <= tr[j].inserted
    decreases j
  {
    if i < j {
      InsertedGrows(tr, i, j - 1);
      assert Next(tr[j - 1], tr[j]);
    }
  }

  lemma {:induction false} RunInv(tr: seq<State>, i: nat)
    requires Run(tr) && i < |tr| && InRange(tr[0].value) && tr[0].value + tr[i].inserted <= MAX_INT
    ensures Inv(tr[i], tr[0].value)
  {
    if i > 0 {
      InsertedGrows(tr, i - 1, i);
      RunInv(tr, i - 1);
      NextKeepsInv(tr[i - 1], tr[i], tr[0].value);
    }
  }

  /** Under any interleaving and any failures a counter never runs ahead of the rows inserted
      and never falls below its start, short of the 64-bit limit. */
  lemma CounterNeverRunsAhead(tr: seq<State>, i: nat)
    requires Run(tr) && i < |tr| && InRange(tr[0].value) && tr[0].value + tr[i].inserted <= MAX_INT
    ensures tr[0].value <= tr[i].value <= tr[0].value + tr[i].inserted
  {
    RunInv(tr, i);
  }

  // ---- bumps by one ----

  ghost predicate Ones(s: State) {
    forall j <- s.jobs :: s.jobs[j].Ready? || s.jobs[j].Loaded? ==> s.jobs[j].rows == 1
  }

  ghost predicate OnesInv(s: State, start: int) {
    s.stored == s.writes && (s.writes > 0 ==> s.value > start)
  }

  lemma StoreOfOne(s: State, s': State, start: int)
    requires Inv(s, start) && OnesInv(s, start) && Ones(s) && Next(s, s')
    requires InRange(start) && start + s'.inserted <= MAX_INT
    ensures OnesInv(s', start)
  {
    if j :| Store(s, s', j) {
      OutstandingUpdate(s.jobs, j, s'.jobs[j]);
    }
  }

  /** After N completed bumps, N at least 1, the count lies between start + 1 and start + N. */
  lemma {:induction false} BumpsAreBounded(tr: seq<State>, i: nat)
    requires Run(tr) && i < |tr| && InRange(tr[0].value) && tr[0].value + tr[i].inserted <= MAX_INT
    requires forall k :: 0 <= k < |tr| ==> Ones(tr[k])
    ensures OnesInv(tr[i], tr[0].value)
    ensures tr[i].writes > 0 ==> tr[0].value + 1 <= tr[i].value <= tr[0].value + tr[i].writes
  {
    if i > 0 {
      InsertedGrows(tr, i - 1, i);
      BumpsAreBounded(tr, i - 1);
      RunInv(tr, i - 1);
      StoreOfOne(tr[i - 1], tr[i], tr[0].value);
    }
    RunInv(tr, i);
  }

  // ---- serial jobs ----

  /** Nothing is lost up to step n: at every moment the counter is its start plus the rows stored. */
  ghost predicate ExactUpTo(tr: seq<State>, n: nat)
    requires n < |tr|
  {
    forall k :: 0 <= k <= n ==> tr[k].value == tr[0].value + tr[k].stored
  }

  /** The job that stores in this step had read the value that it replaces. */
  ghost predicate StoresCurrent(s: State, s': State) {
    forall j: nat :: Store(s, s', j) ==> s.jobs[j].seen == s.value
  }

  ghost predicate CurrentUpTo(tr: seq<State>, n: nat)
    requires n < |tr|
  {
    forall k :: 0 <= k < n ==> StoresCurrent(tr[k], tr[k + 1])
  }

  lemma StepIsExact(s: State, s': State, start: int)
    requires Inv(s, start) && Next(s, s') && InRange(start) && start + s'.inserted <= MAX_INT
    requires s.value == start + s.stored
    ensures s'.value == start + s'.stored <==> StoresCurrent(s, s')
  {
    if j :| Store(s, s', j) {
      OutstandingUpdate(s.jobs, j, s'.jobs[j]);
      NoWrap(s, j, start);
      OneStore(s, s', j);
      assert s'.value == s.jobs[j].seen + s.jobs[j].rows;
    }
  }

  /** Which job stored is visible in the states. */
  lemma OneStore(s: State, s': State, j: nat)
    requires Store(s, s', j)
    ensures forall i: nat :: Store(s, s', i) ==> i == j
  {
    assert s'.jobs[j] != s.jobs[j];
  }

  lemma NoWrap(s: State, j: nat, start: int)
    requires Inv(s, start) && j in s.jobs && s.jobs[j].Loaded?
    requires InRange(start) && start + s.inserted <= MAX_INT
    ensures InRange(s.jobs[j].seen + s.jobs[j].rows)
  {
    OutstandingAt(s.jobs, j);
  }

  /** The exact condition: no update is lost if and only if every store replaces the very value
      its job had read. */
  lemma {:induction false} ExactWhenStoresAreCurrent(tr: seq<State>, n: nat)
    requires Run(tr) && n < |tr| && InRange(tr[0].value) && tr[0].value + tr[n].inserted <= MAX_INT
    ensures ExactUpTo(tr, n) <==> CurrentUpTo(tr, n)
  {
    if n > 0 {
      InsertedGrows(tr, n - 1, n);
      ExactWhenStoresAreCurrent(tr, n - 1);
      RunInv(tr, n - 1);
      LastStepIsExact(tr, n);
    }
  }

  lemma LastStepIsExact(tr: seq<State>, n: nat)
    requires Run(tr) && 0 < n < |tr| && InRange(tr[0].value) && tr[0].value + tr[n].inserted <= MAX_INT
    requires Inv(tr[n - 1], tr[0].value) && (ExactUpTo(tr, n - 1) <==> CurrentUpTo(tr, n - 1))
    ensures ExactUpTo(tr, n) <==> CurrentUpTo(tr, n)
  {
    assert Next(tr[n - 1], tr[n]);
    if tr[n - 1].value == tr[0].value + tr[n - 1].stored {
      StepIsExact(tr[n - 1], tr[n], tr[0].value);
    }
    hide Inv, Next, StoresCurrent, Run;
    assert ExactUpTo(tr, n) <==> ExactUpTo(tr, n - 1) && tr[n].value == tr[0].value + tr[n].stored;
    assert CurrentUpTo(tr, n) <==> CurrentUpTo(tr, n - 1) && StoresCurrent(tr[n - 1], tr[n - 1 + 1]);
  }

  /** No job reads the counter while another is between its read and its write. */
  ghost predicate Serial(s: State) {
    forall j <- s.jobs, k <- s.jobs :: s.jobs[j].Loaded? && s.jobs[k].Loaded? ==> j == k
  }

  ghost predicate LoadedCurrent(s: State) {
    forall j <- s.jobs :: s.jobs[j].Loaded? ==> s.jobs[j].seen == s.value
  }

  lemma SerialNext(s: State, s': State)
    requires LoadedCurrent(s) && Serial(s) && Next(s, s')
    ensures LoadedCurrent(s') && StoresCurrent(s, s')
  {
  }

  lemma {:induction false} SerialStoresAreCurrent(tr: seq<State>, n: nat)
    requires Run(tr) && n < |tr| && forall k :: 0 <= k < |tr| ==> Serial(tr[k])
    ensures LoadedCurrent(tr[n]) && CurrentUpTo(tr, n)
  {
    hide Next, LoadedCurrent, Serial, StoresCurrent;
    if n == 0 {
      NoJobsYet(tr[0]);
    } else {
      SerialStoresAreCurrent(tr, n - 1);
      assert Next(tr[n - 1], tr[n]);
      SerialNext(tr[n - 1], tr[n]);
    }
  }

  lemma NoJobsYet(s: State)
    requires Init(s)
    ensures LoadedCurrent(s)
  {
  }

  lemma {:induction false} NothingDue(jobs: map<nat, Job>)
    requires forall j <- jobs :: Due(jobs[j]) == 0
    ensures Outstanding(jobs) == 0
    decreases |jobs|
  {
    if jobs != map[] {
      assert jobs.Keys != {};
      var j :| j in jobs;
      OutstandingAt(jobs, j);
      NothingDue(jobs - {j});
    }
  }

  /** When every job has either stored or been refused its insert, all rows inserted are stored. */
  lemma AllStored(s: State, start: int)
    requires Inv(s, start) && forall j <- s.jobs :: s.jobs[j].Stored? || s.jobs[j].Refused?
    ensures s.stored == s.inserted
  {
    NothingDue(s.jobs);
  }

  /** Serial jobs store upon the value they read, so they lose nothing; without failures the
      counter ends at its start plus every row inserted. */
  lemma SerialJobsAreExact(tr: seq<State>, i: nat)
    requires Run(tr) && i < |tr| && InRange(tr[0].value) && tr[0].value + tr[i].inserted <= MAX_INT
    requires forall k :: 0 <= k < |tr| ==> Serial(tr[k])
    ensures ExactUpTo(tr, i)
    ensures (forall j <- tr[i].jobs :: tr[i].jobs[j].Stored? || tr[i].jobs[j].Refused?) ==>
              tr[i].value == tr[0].value + tr[i].inserted
  {
    SerialStoresAreCurrent(tr, i);
    ExactWhenStoresAreCurrent(tr, i);
    RunInv(tr, i);
    if forall j <- tr[i].jobs :: tr[i].jobs[j].Stored? || tr[i].jobs[j].Refused? {
      AllStored(tr[i], tr[0].value);
    }
  }

  // ---- the lower bound is reached ----

  function Below(n: nat): (b: set<nat>)
    ensures forall j: nat :: j in b <==> j < n
  {
    if n == 0 then {} else Below(n - 1) + {n - 1}
  }

  /** n jobs that have all read the counter before any writes it, and the first w wrote. */
  ghost function Racing(start: int, n: nat, w: nat): State
    requires w <= n
  {
    State(if w == 0 then start else Wrap(start + 1), n, w, w,
          map j <- Below(n) :: if j < w then Stored(1) else Loaded(1, start))
  }

  ghost function HalfWay(start: int, n: nat): State {
    State(start, n + 1, 0, 0, (map j <- Below(n) :: Loaded(1, start))[n := Ready(1)])
  }

  lemma {:induction false} AllRead(start: int, n: nat) returns (tr: seq<State>)
    ensures Run(tr) && tr[0].value == start && tr[|tr| - 1] == Racing(start, n, 0)
  {
    if n == 0 {
      tr := [Racing(start, 0, 0)];
    } else {
      var before := AllRead(start, n - 1);
      var last, half, now := Racing(start, n - 1, 0), HalfWay(start, n - 1), Racing(start, n, 0);
      assert Insert(last, half, n - 1, 1, true);
      assert Load(half, now, n - 1);
      tr := before + [half, now];
    }
  }

  lemma {:induction false} AllWrite(start: int, n: nat, w: nat) returns (tr: seq<State>)
    requires w <= n
    ensures Run(tr) && tr[0].value == start && tr[|tr| - 1] == Racing(start, n, w)
  {
    if w == 0 {
      tr := AllRead(start, n);
    } else {
      var before := AllWrite(start, n, w - 1);
      assert Store(Racing(start, n, w - 1), Racing(start, n, w), w - 1);
      tr := before + [Racing(start, n, w)];
    }
  }

  /** For every N there is a run in which N bumps complete and the count goes up by one. */
  lemma UpdatesCanBeLost(start: int, n: nat) returns (tr: seq<State>)
    requires InRange(start + 1) && n > 0
    ensures Run(tr) && tr[0].value == start
    ensures tr[|tr| - 1].writes == n && tr[|tr| - 1].value == start + 1
  {
    tr := AllWrite(start, n, n);
  }
}
