/** Any number of editor and operator requests against one custom resource that the API server
    keeps as a versioned cell: a PUT succeeds only on the version it read. A handler may stop
    between any two of its steps, a reply may be lost, and the operator may read a stale copy. */
module PipelineRuns {
  import opened Wrappers
  import opened Domain
  import opened PipelineSpec
  import ReadBack

  datatype Thread =
    | Ready(req: Request)
    | Sending(req: Request, seen: nat, base: nat, rest: seq<Spec>, commits: nat, planned: nat)
    | Done(req: Request, ok: bool, commits: nat, planned: nat)

  /** A commit: whose it was, what it did, and the version of the copy its handler was handed. */
  datatype Entry = Entry(thread: nat, req: Request, seen: nat)

  /** history[k] is version k of the resource and log[k] the commit that wrote version k + 1. */
  datatype State = State(
    history: seq<Spec>, log: seq<Entry>, threads: map<nat, Thread>, issued: set<string>)

  datatype Reply = Answered | Lost | Refused

  ghost predicate Init(s: State) {
    && |s.history| == 1 && s.log == [] && s.threads == map[]
    && SpecInv(s.history[0])
    && Ids(s.history[0]) <= s.issued + {""} && "" !in s.issued
  }

  /** xid.New hands out an id, and the key generator a key, never seen before. */
  ghost predicate Start(s: State, s': State, t: nat, req: Request) {
    && t !in s.threads
    && (NewId(req).Some? ==> NewId(req).value !in s.issued + {""})
    && s' == s.(threads := s.threads[t := Ready(req)],
                issued := s.issued + if NewId(req).Some? then {NewId(req).value} else {})
  }

  /** The editors read the live resource. The operator was handed a cached copy `seen`: the id
      step writes that very copy back, the credential step only looks at it before a live read. */
  ghost predicate Read(syntax: PathSyntax, s: State, s': State, t: nat, seen: nat) {
    && t in s.threads && s.threads[t].Ready? && seen < |s.history|
    && var req := s.threads[t].req;
    && var live := |s.history| - 1;
    && (req.ProcessId? || req.ProcessCreds? || seen == live)
    && var base := if req.ProcessId? then seen else live;
    && s' == s.(threads := s.threads[t :=
         if req.ProcessCreds? && s.history[seen].dbCreds != Empty then Done(req, true, 0, 0)
         else match PlanFor(syntax, req, s.history[base])
              case Reject(_) => Done(req, false, 0, 0)
              case Puts(ps) => if ps == [] then Done(req, true, 0, 0) else Sending(req, seen, base, ps, 0, |ps|)])
  }

  /** A later PUT of the same handler still carries the version of its first read. */
  ghost predicate Put(s: State, s': State, t: nat, reply: Reply) {
    && t in s.threads && s.threads[t].Sending? && s.threads[t].rest != []
    && var th := s.threads[t];
    && if th.base != |s.history| - 1 || reply.Refused? then
         s' == s.(threads := s.threads[t := Done(th.req, false, th.commits, th.planned)])
       else
         s' == s.(history := s.history + [th.rest[0]], log := s.log + [Entry(t, th.req, th.seen)],
                  threads := s.threads[t :=
                    if reply.Lost? then Done(th.req, false, th.commits + 1, th.planned)
                    else if |th.rest| == 1 then Done(th.req, true, th.commits + 1, th.planned)
                    else Sending(th.req, th.seen, th.base, th.rest[1..], th.commits + 1, th.planned)])
  }

  ghost predicate Next(syntax: PathSyntax, s: State, s': State) {
    || (exists t, req :: Start(s, s', t, req))
    || (exists t, seen :: Read(syntax, s, s', t, seen))
    || (exists t, reply :: Put(s, s', t, reply))
  }

  ghost predicate Steps(syntax: PathSyntax, tr: seq<State>) {
    tr != [] && forall i :: 0 <= i < |tr| - 1 ==> Next(syntax, tr[i], tr[i + 1])
  }

  ghost predicate Run(syntax: PathSyntax, tr: seq<State>) {
    Steps(syntax, tr) && Init(tr[0])
  }

  // ---- inductive invariant ----

  ghost predicate Meaning(syntax: PathSyntax, s: State) {
    && |s.history| == |s.log| + 1
    && (forall k :: 0 <= k < |s.history| ==> SpecInv(s.history[k]) && Ids(s.history[k]) <= s.issued + {""})
    && (forall k :: 0 <= k < |s.log| ==> s.history[k + 1] == Apply(syntax, s.log[k].req, s.history[k]))
    && "" !in s.issued
  }

  function Commits(th: Thread): nat {
    if th.Ready? then 0 else th.commits
  }

  ghost predicate ThreadOk(syntax: PathSyntax, s: State, th: Thread) {
    match th
    case Ready(_) => true
    case Sending(req, seen, base, rest, commits, planned) =>
      && seen <= base < |s.history| && rest != []
      && (req.ProcessCreds? ==> s.history[seen].dbCreds == Empty) && commits + |rest| == planned
      && (if commits == 0 then
            PlanFor(syntax, req, s.history[base]) == Puts(rest) && rest[0] == Apply(syntax, req, s.history[base])
          else commits == 1 && base < |s.history| - 1)
    case Done(_, ok, commits, planned) => commits <= 1 && (ok ==> commits == planned)
  }

  ghost predicate ThreadsOk(syntax: PathSyntax, s: State) {
    forall t <- s.threads :: ThreadOk(syntax, s, s.threads[t])
  }

  /** A request in flight still owns its xid. */
  ghost predicate Owns(th: Thread, x: string) {
    !th.Done? && Commits(th) == 0 && NewId(th.req) == Some(x)
  }

  ghost predicate Fresh(s: State) {
    && (forall t <- s.threads, x :: Owns(s.threads[t], x) ==> x in s.issued && x != "")
    && (forall t <- s.threads, x, k :: Owns(s.threads[t], x) && 0 <= k < |s.history| ==> x !in Ids(s.history[k]))
    && (forall t <- s.threads, u <- s.threads, x :: Owns(s.threads[t], x) && Owns(s.threads[u], x) ==> t == u)
  }

  ghost predicate Logged(s: State, entry: Entry) {
    entry.thread in s.threads && s.threads[entry.thread].req == entry.req && Commits(s.threads[entry.thread]) > 0
  }

  ghost predicate LogOk(s: State) {
    && (forall k :: 0 <= k < |s.log| ==> Logged(s, s.log[k]))
    && (forall j, k :: 0 <= j < k < |s.log| ==> s.log[j].thread != s.log[k].thread)
    && (forall t <- s.threads :: Commits(s.threads[t]) > 0 ==> exists k :: 0 <= k < |s.log| && s.log[k].thread == t)
  }

  ghost predicate Inv(syntax: PathSyntax, s: State) {
    Meaning(syntax, s) && ThreadsOk(syntax, s) && Fresh(s) && LogOk(s)
  }

  lemma StartKeepsMeaning(syntax: PathSyntax, s: State, s': State, t: nat, req: Request)
    requires Meaning(syntax, s) && ThreadsOk(syntax, s) && Start(s, s', t, req)
    ensures Meaning(syntax, s') && ThreadsOk(syntax, s')
  {
    hide PipelineSpec.Apply, PipelineSpec.SpecInv, PipelineSpec.Ids;
  }

  lemma StartKeepsFresh(syntax: PathSyntax, s: State, s': State, t: nat, req: Request)
    requires Meaning(syntax, s) && Fresh(s) && Start(s, s', t, req)
    ensures Fresh(s')
  {
    hide PipelineSpec.Apply, PipelineSpec.SpecInv, PipelineSpec.Ids, PipelineSpec.NewId;
    forall u <- s'.threads, x | Owns(s'.threads[u], x)
      ensures u == t || Owns(s.threads[u], x)
      ensures u == t ==> NewId(req) == Some(x)
    {
    }
    forall k | 0 <= k < |s.history| ensures Ids(s.history[k]) <= s.issued + {""} {
    }
  }

  lemma StartKeepsLog(s: State, s': State, t: nat, req: Request)
    requires LogOk(s) && Start(s, s', t, req)
    ensures LogOk(s')
  {
    hide PipelineSpec.NewId;
    assert forall k :: 0 <= k < |s.log| ==> Logged(s, s.log[k]);
  }

  lemma StartKeepsInv(syntax: PathSyntax, s: State, s': State, t: nat, req: Request)
    requires Inv(syntax, s) && Start(s, s', t, req)
    ensures Inv(syntax, s')
  {
    StartKeepsMeaning(syntax, s, s', t, req);
    StartKeepsFresh(syntax, s, s', t, req);
    StartKeepsLog(s, s', t, req);
    hide Meaning, ThreadsOk, Fresh, LogOk, Start;
  }

  lemma ReadKeepsThread(syntax: PathSyntax, s: State, s': State, t: nat, seen: nat)
    requires Meaning(syntax, s) && Read(syntax, s, s', t, seen)
    ensures ThreadOk(syntax, s', s'.threads[t]) && Commits(s'.threads[t]) == 0
    ensures s'.threads[t].req == s.threads[t].req
  {
    var base := if s.threads[t].req.ProcessId? then seen else |s.history| - 1;
    PlanIsApply(syntax, s.threads[t].req, s.history[base]);
  }

  lemma ReadKeepsInv(syntax: PathSyntax, s: State, s': State, t: nat, seen: nat)
    requires Inv(syntax, s) && Read(syntax, s, s', t, seen)
    ensures Inv(syntax, s')
  {
    ReadKeepsThread(syntax, s, s', t, seen);
    ReplaceKeepsInv(syntax, s, s', t);
  }

  /** A step that only moves thread t on, without a commit, keeps the invariant. */
  lemma ReplaceKeepsInv(syntax: PathSyntax, s: State, s': State, t: nat)
    requires Inv(syntax, s) && t in s.threads && t in s'.threads
    requires s' == s.(threads := s.threads[t := s'.threads[t]])
    requires ThreadOk(syntax, s', s'.threads[t]) && Commits(s'.threads[t]) == Commits(s.threads[t])
    requires s'.threads[t].req == s.threads[t].req && !s.threads[t].Done?
    ensures Inv(syntax, s')
  {
    hide PipelineSpec.Apply, PipelineSpec.NewId, PipelineSpec.SpecInv, PipelineSpec.Ids, ThreadOk;
    forall u <- s'.threads ensures ThreadOk(syntax, s', s'.threads[u]) {
      if u != t {
        ThreadOkGrows(syntax, s, s', s.threads[u]);
      }
    }
    assert forall u <- s'.threads, x :: Owns(s'.threads[u], x) ==> Owns(s.threads[u], x);
    assert forall k :: 0 <= k < |s.log| ==> Logged(s, s.log[k]);
  }

  ghost predicate Commit(s: State, s': State, t: nat, reply: Reply) {
    Put(s, s', t, reply) && s.threads[t].base == |s.history| - 1 && !reply.Refused?
  }

  /** The version check makes the copy a committing handler read the current resource. */
  lemma CommitWritesApply(syntax: PathSyntax, s: State, s': State, t: nat, reply: Reply)
    requires Inv(syntax, s) && Commit(s, s', t, reply)
    ensures s.threads[t].commits == 0
    ensures s'.history == s.history + [Apply(syntax, s.threads[t].req, s.history[|s.history| - 1])]
    ensures NewId(s.threads[t].req).Some? ==> Owns(s.threads[t], NewId(s.threads[t].req).value)
  {
    assert ThreadOk(syntax, s, s.threads[t]);
  }

  lemma CommitKeepsMeaning(syntax: PathSyntax, s: State, s': State, t: nat, reply: Reply)
    requires Inv(syntax, s) && Commit(s, s', t, reply)
    ensures Meaning(syntax, s')
  {
    hide PipelineSpec.Apply, PipelineSpec.PlanFor, PipelineSpec.SpecInv, PipelineSpec.Ids, ThreadsOk, LogOk,
        PipelineSpec.NewId;
    CommitWritesApply(syntax, s, s', t, reply);
    NextVersionIsSound(syntax, s, t);
  }

  /** What the committed request makes of the current version is again within the invariant. */
  lemma NextVersionIsSound(syntax: PathSyntax, s: State, t: nat)
    requires Meaning(syntax, s) && Fresh(s) && t in s.threads
    requires NewId(s.threads[t].req).Some? ==> Owns(s.threads[t], NewId(s.threads[t].req).value)
    ensures var next := Apply(syntax, s.threads[t].req, s.history[|s.history| - 1]);
            SpecInv(next) && Ids(next) <= s.issued + {""}
  {
    hide PipelineSpec.Apply, PipelineSpec.SpecInv, PipelineSpec.Ids, PipelineSpec.NewId;
    var req, now := s.threads[t].req, s.history[|s.history| - 1];
    ApplyKeepsInv(syntax, req, now);
    ApplyIds(syntax, req, now);
  }

  lemma ThreadOkGrows(syntax: PathSyntax, s: State, s': State, th: Thread)
    requires ThreadOk(syntax, s, th) && s.history <= s'.history
    ensures ThreadOk(syntax, s', th)
  {
  }

  lemma CommitKeepsThreads(syntax: PathSyntax, s: State, s': State, t: nat, reply: Reply)
    requires Inv(syntax, s) && Commit(s, s', t, reply)
    ensures ThreadsOk(syntax, s')
  {
    CommitWritesApply(syntax, s, s', t, reply);
    forall u <- s'.threads ensures ThreadOk(syntax, s', s'.threads[u]) {
      assert u in s.threads && ThreadOk(syntax, s, s.threads[u]);
      if u != t {
        ThreadOkGrows(syntax, s, s', s.threads[u]);
      }
    }
  }

  lemma CommitKeepsLogged(s: State, s': State, t: nat, reply: Reply, k: nat)
    requires LogOk(s) && Commit(s, s', t, reply) && s.threads[t].commits == 0 && k < |s'.log|
    ensures Logged(s', s'.log[k])
  {
    if k < |s.log| {
      assert Logged(s, s.log[k]) && s'.log[k] == s.log[k];
    }
  }

  /** The committing thread has not committed before. */
  lemma CommitIsNew(s: State, s': State, t: nat, reply: Reply)
    requires LogOk(s) && Commit(s, s', t, reply) && s.threads[t].commits == 0
    ensures s'.log == s.log + [Entry(t, s.threads[t].req, s.threads[t].seen)]
    ensures forall k :: 0 <= k < |s.log| ==> s.log[k].thread != t
    ensures forall u <- s'.threads :: u == t || (u in s.threads && s'.threads[u] == s.threads[u])
  {
    forall k | 0 <= k < |s.log| ensures s.log[k].thread != t {
      assert Logged(s, s.log[k]);
    }
  }

  lemma CommitKeepsLog(syntax: PathSyntax, s: State, s': State, t: nat, reply: Reply)
    requires LogOk(s) && Commit(s, s', t, reply) && s.threads[t].commits == 0
    ensures LogOk(s')
  {
    CommitIsNew(s, s', t, reply);
    forall k | 0 <= k < |s'.log| ensures Logged(s', s'.log[k]) {
      CommitKeepsLogged(s, s', t, reply, k);
    }
    hide Commit, Logged;
    assert s'.log[|s.log|].thread == t;
    forall u <- s'.threads | Commits(s'.threads[u]) > 0
      ensures exists k :: 0 <= k < |s'.log| && s'.log[k].thread == u
    {
      if u != t {
        var k :| 0 <= k < |s.log| && s.log[k].thread == u;
        assert s'.log[k].thread == u;
      }
    }
  }

  lemma CommitKeepsFresh(syntax: PathSyntax, s: State, s': State, t: nat, reply: Reply)
    requires Inv(syntax, s) && Commit(s, s', t, reply)
    ensures Fresh(s')
  {
    CommitWritesApply(syntax, s, s', t, reply);
    var req, now := s.threads[t].req, s.history[|s.history| - 1];
    ApplyIds(syntax, req, now);
    assert forall u <- s'.threads, x :: Owns(s'.threads[u], x) ==> u != t && Owns(s.threads[u], x);
    assert forall u <- s.threads, x :: u != t && Owns(s.threads[u], x) ==> NewId(req) != Some(x);
    forall u <- s'.threads, x, k | Owns(s'.threads[u], x) && 0 <= k < |s'.history|
      ensures x !in Ids(s'.history[k])
    {
      assert Owns(s.threads[u], x);
      assert k == |s.history| ==> x !in Ids(now);
    }
  }

  lemma PutKeepsInv(syntax: PathSyntax, s: State, s': State, t: nat, reply: Reply)
    requires Inv(syntax, s) && Put(s, s', t, reply)
    ensures Inv(syntax, s')
  {
    if s.threads[t].base == |s.history| - 1 && !reply.Refused? {
      CommitKeepsMeaning(syntax, s, s', t, reply);
      CommitKeepsThreads(syntax, s, s', t, reply);
      CommitWritesApply(syntax, s, s', t, reply);
      CommitKeepsLog(syntax, s, s', t, reply);
      CommitKeepsFresh(syntax, s, s', t, reply);
    } else {
      assert ThreadOk(syntax, s, s.threads[t]);
      ReplaceKeepsInv(syntax, s, s', t);
    }
  }

  lemma NextKeepsInv(syntax: PathSyntax, s: State, s': State)
    requires Inv(syntax, s) && Next(syntax, s, s')
    ensures Inv(syntax, s')
  {
    if t, req :| Start(s, s', t, req) {
      StartKeepsInv(syntax, s, s', t, req);
    } else if t, seen :| Read(syntax, s, s', t, seen) {
      ReadKeepsInv(syntax, s, s', t, seen);
    } else {
      var t, reply :| Put(s, s', t, reply);
      PutKeepsInv(syntax, s, s', t, reply);
    }
  }

  lemma {:induction false} RunInv(syntax: PathSyntax, tr: seq<State>, i: nat)
    requires Run(syntax, tr) && i < |tr|
    ensures Inv(syntax, tr[i])
  {
    if i > 0 {
      RunInv(syntax, tr, i - 1);
      NextKeepsInv(syntax, tr[i - 1], tr[i]);
    }
  }

  // ---- what holds in every run ----

  function ApplyAll(syntax: PathSyntax, spec: Spec, log: seq<Entry>): Spec {
    if log == [] then spec
    else Apply(syntax, log[|log| - 1].req, ApplyAll(syntax, spec, log[..|log| - 1]))
  }

  lemma {:induction false} HistoryIsApplyAll(syntax: PathSyntax, s: State, k: nat)
    requires Meaning(syntax, s) && k <= |s.log|
    ensures s.history[k] == ApplyAll(syntax, s.history[0], s.log[..k])
  {
    if k > 0 {
      HistoryIsApplyAll(syntax, s, k - 1);
      assert s.log[..k][..k - 1] == s.log[..k - 1];
    }
  }

  lemma {:induction false} HistoryGrows(syntax: PathSyntax, tr: seq<State>, i: nat, j: nat)
    requires Run(syntax, tr) && i <= j < |tr|
    ensures tr[i].history <= tr[j].history && tr[i].log <= tr[j].log
    decreases j
  {
    hide PipelineSpec.PlanFor, PipelineSpec.NewId;
    if i < j {
      HistoryGrows(syntax, tr, i, j - 1);
      assert Next(syntax, tr[j - 1], tr[j]);
    }
  }

  /** Serialisability: whatever the interleaving, every version ever committed is the first one
      with the committed requests applied one at a time in commit order; a committed version is
      never rewritten; and no request is committed twice. */
  lemma EditorsSerialize(syntax: PathSyntax, tr: seq<State>, i: nat, k: nat)
    requires Run(syntax, tr) && i < |tr| && k < |tr[i].history|
    ensures k <= |tr[i].log|
    ensures tr[i].history[k] == ApplyAll(syntax, tr[0].history[0], tr[i].log[..k])
    ensures forall j :: i <= j < |tr| ==> tr[i].history <= tr[j].history
    ensures forall a, b :: 0 <= a < b < |tr[i].log| ==> tr[i].log[a].thread != tr[i].log[b].thread
  {
    RunInv(syntax, tr, i);
    HistoryIsApplyAll(syntax, tr[i], k);
    HistoryGrows(syntax, tr, 0, i);
    forall j | i <= j < |tr| ensures tr[i].history <= tr[j].history {
      HistoryGrows(syntax, tr, i, j);
    }
  }

  /** Every version has distinct source, rule and function ids, distinct source paths, and
      database and service credentials of one and the same generation. */
  lemma EveryVersionIsSound(syntax: PathSyntax, tr: seq<State>, i: nat, k: nat)
    requires Run(syntax, tr) && i < |tr| && k < |tr[i].history|
    ensures SpecInv(tr[i].history[k])
  {
    RunInv(syntax, tr, i);
  }

  lemma CommitKeepsId(syntax: PathSyntax, s: State, k: nat)
    requires Meaning(syntax, s) && k < |s.log| && s.history[k].id != ""
    ensures s.history[k + 1].id == s.history[k].id
  {
    ApplyIds(syntax, s.log[k].req, s.history[k]);
  }

  lemma {:induction false} IdStays(syntax: PathSyntax, s: State, a: nat, b: nat)
    requires Meaning(syntax, s) && a <= b < |s.history| && s.history[a].id != ""
    ensures s.history[b].id == s.history[a].id
    decreases b
  {
    hide PipelineSpec.Apply, PipelineSpec.SpecInv, PipelineSpec.Ids;
    if a < b {
      IdStays(syntax, s, a, b - 1);
      CommitKeepsId(syntax, s, b - 1);
    }
  }

  /** The pipeline id is written once, although the id step starts from a possibly stale copy. */
  lemma PipelineIdIsWriteOnce(syntax: PathSyntax, tr: seq<State>, i: nat, j: nat, a: nat, b: nat)
    requires Run(syntax, tr) && i <= j < |tr|
    requires a < |tr[i].history| && a <= b < |tr[j].history| && tr[i].history[a].id != ""
    ensures tr[j].history[b].id == tr[i].history[a].id
  {
    RunInv(syntax, tr, j);
    HistoryGrows(syntax, tr, i, j);
    IdStays(syntax, tr[j], a, b);
  }

  /** A handler that reports success has committed all it planned, which is then at most one
      write; a failure report means at most one commit. The log holds exactly the commits. */
  lemma ReportsAreHonest(syntax: PathSyntax, tr: seq<State>, i: nat, t: nat)
    requires Run(syntax, tr) && i < |tr| && t in tr[i].threads && tr[i].threads[t].Done?
    ensures var th := tr[i].threads[t];
            && th.commits <= 1 && (th.ok ==> th.commits == th.planned)
            && (th.planned > 1 ==> !th.ok)
            && (th.commits == 1 <==> exists k :: 0 <= k < |tr[i].log| && tr[i].log[k].thread == t)
            && forall k :: 0 <= k < |tr[i].log| && tr[i].log[k].thread == t ==> tr[i].log[k].req == th.req
  {
    RunInv(syntax, tr, i);
    var s := tr[i];
    assert ThreadOk(syntax, s, s.threads[t]);
    assert forall k :: 0 <= k < |s.log| ==> Logged(s, s.log[k]);
    if s.threads[t].commits == 1 {
      var k :| 0 <= k < |s.log| && s.log[k].thread == t;
      assert s.log[k].req == s.threads[t].req;
    }
  }

  // ---- what a committed version holds ----

  /** A logged request had a plan on the version its commit came upon, and its first write is the
      next version. */
  ghost predicate Written(syntax: PathSyntax, before: Spec, req: Request, after: Spec) {
    PlanFor(syntax, req, before).Puts? && PlanFor(syntax, req, before).specs != []
    && after == PlanFor(syntax, req, before).specs[0]
  }

  ghost predicate LogWritten(syntax: PathSyntax, s: State) {
    && |s.history| == |s.log| + 1
    && forall k :: 0 <= k < |s.log| ==> Written(syntax, s.history[k], s.log[k].req, s.history[k + 1])
  }

  lemma CommitIsWritten(syntax: PathSyntax, s: State, s': State, t: nat, reply: Reply)
    requires Inv(syntax, s) && Commit(s, s', t, reply)
    ensures |s'.history| == |s.history| + 1 && s'.history[..|s.history|] == s.history
    ensures s'.log == s.log + [Entry(t, s.threads[t].req, s.threads[t].seen)]
    ensures Written(syntax, s.history[|s.history| - 1], s.threads[t].req, s'.history[|s.history|])
  {
    CommitWritesApply(syntax, s, s', t, reply);
    hide PipelineSpec.Apply, PipelineSpec.PlanFor, Meaning, Fresh, LogOk;
    assert ThreadOk(syntax, s, s.threads[t]);
  }

  lemma NextKeepsWritten(syntax: PathSyntax, s: State, s': State)
    requires Inv(syntax, s) && LogWritten(syntax, s) && Next(syntax, s, s')
    ensures LogWritten(syntax, s')
  {
    hide PipelineSpec.Apply, PipelineSpec.PlanFor, Inv, PipelineSpec.NewId, Written;
    if t, reply :| Put(s, s', t, reply) && s.threads[t].base == |s.history| - 1 && !reply.Refused? {
      CommitIsWritten(syntax, s, s', t, reply);
      hide Put, Next;
      forall k | 0 <= k < |s'.log| ensures Written(syntax, s'.history[k], s'.log[k].req, s'.history[k + 1]) {
        assert s'.history[k] == s'.history[..|s.history|][k];
        assert k < |s.log| ==> s'.history[k + 1] == s'.history[..|s.history|][k + 1];
      }
    } else {
      assert s'.history == s.history && s'.log == s.log;
    }
  }

  /** Every committed version was planned, as its commit found things. */
  lemma {:induction false} CommitsAreWritten(syntax: PathSyntax, tr: seq<State>, i: nat)
    requires Run(syntax, tr) && i < |tr|
    ensures LogWritten(syntax, tr[i])
  {
    hide Next, Inv, Written, PipelineSpec.SpecInv, PipelineSpec.Ids;
    if i > 0 {
      CommitsAreWritten(syntax, tr, i - 1);
      RunInv(syntax, tr, i - 1);
      NextKeepsWritten(syntax, tr[i - 1], tr[i]);
    }
  }

  /** A committed source update, whatever ran beside it: there was a source with the id, and in the
      version it wrote that source holds the request's fields, the multiline flag excepted, while
      everything else is as in the version before. */
  lemma CommittedSourceUpdateReadsBack(syntax: PathSyntax, tr: seq<State>, i: nat, k: nat, f: Source) returns (at: nat)
    requires Run(syntax, tr) && i < |tr| && k < |tr[i].log| && tr[i].log[k].req == UpdateSource(f)
    ensures |tr[i].history| == |tr[i].log| + 1
    ensures var was := tr[i].history[k];
            && at < |was.sources| && was.sources[at].id == f.id
            && tr[i].history[k + 1]
               == was.(sources := was.sources[at := f.(multiline := was.sources[at].multiline)])
  {
    hide PipelineSpec.PlanFor, PipelineSpec.SpecInv, Meaning;
    CommitsAreWritten(syntax, tr, i);
    EveryVersionIsSound(syntax, tr, i, k);
    var was := tr[i].history[k];
    assert Written(syntax, was, UpdateSource(f), tr[i].history[k + 1]);
    if at0: nat :| ReadBack.At(was.sources, SourceId, f.id, at0) {
      at := at0;
      ReadBack.UpdateSourceReadsBack(syntax, f, was, at);
    } else {
      at := 0;
      assert ReadBack.Nowhere(was.sources, SourceId, f.id) by {
        forall j | 0 <= j < |was.sources| ensures SourceId(was.sources[j]) != f.id {
          assert !ReadBack.At(was.sources, SourceId, f.id, j);
        }
      }
      ReadBack.UpdateMissingSource(syntax, f, was);
      assert false;
    }
  }

  lemma StartStep(syntax: PathSyntax, s: State, t: nat, req: Request) returns (s': State)
    requires t !in s.threads && (NewId(req).Some? ==> NewId(req).value !in s.issued + {""})
    ensures Next(syntax, s, s') && s' == s.(threads := s.threads[t := Ready(req)], issued := s'.issued)
  {
    hide PipelineSpec.NewId, Read, Put;
    s' := s.(threads := s.threads[t := Ready(req)],
             issued := s.issued + if NewId(req).Some? then {NewId(req).value} else {});
    assert Start(s, s', t, req);
    hide Start;
  }

  lemma ReadAndPutSteps(syntax: PathSyntax, s: State, t: nat, ps: seq<Spec>)
    requires s.history != [] && t in s.threads && s.threads[t].Ready? && !s.threads[t].req.ProcessCreds?
    requires PlanFor(syntax, s.threads[t].req, s.history[|s.history| - 1]) == Puts(ps) && ps != []
    ensures Next(syntax, s, AfterRead(s, t, ps)) && Next(syntax, AfterRead(s, t, ps), AfterPut(s, t, ps))
  {
    ReadAndPut(syntax, s, t, ps);
    hide PipelineSpec.PlanFor, Read, Put, Start, AfterRead, AfterPut;
  }

  /** A request that starts on the current resource and is not overtaken commits its plan, if that
      is one write, and is told so. */
  lemma UndisturbedRequestCommits(syntax: PathSyntax, s: State, t: nat, req: Request, next: Spec)
    returns (tr: seq<State>)
    requires s.history != [] && t !in s.threads && (NewId(req).Some? ==> NewId(req).value !in s.issued + {""})
    requires PlanFor(syntax, req, s.history[|s.history| - 1]) == Puts([next]) && !req.ProcessCreds?
    ensures Steps(syntax, tr) && tr[0] == s
    ensures var last := tr[|tr| - 1];
            && last.history == s.history + [next] && last.threads == s.threads[t := Done(req, true, 1, 1)]
            && last.log == s.log + [Entry(t, req, |s.history| - 1)]
  {
    hide PipelineSpec.PlanFor, PipelineSpec.NewId, Next;
    var s1 := StartStep(syntax, s, t, req);
    ReadAndPutSteps(syntax, s1, t, [next]);
    tr := [s, s1, AfterRead(s1, t, [next]), AfterPut(s1, t, [next])];
    assert tr[3].threads == s.threads[t := Done(req, true, 1, 1)];
    hide AfterRead, AfterPut;
  }

  // ---- updates of extensions, whose ids come from callers ----

  /** How many extensions the update addresses. */
  function Matches(f: Extension, spec: Spec): nat {
    Hits(spec.extensions, (x: Extension) => x.id == f.id)
  }

  lemma UpdateExtensionPlansOneWritePerMatch(syntax: PathSyntax, f: Extension, spec: Spec)
    requires spec.extensions != []
    ensures PlanFor(syntax, UpdateExtension(f), spec).Puts?
    ensures |PlanFor(syntax, UpdateExtension(f), spec).specs| == Matches(f, spec)
  {
    OverwritesCount(spec.extensions, (x: Extension) => x.id == f.id, ExtensionEdit(f), 0);
    assert spec.extensions[0..] == spec.extensions;
  }

  lemma {:induction false} PlanStays(syntax: PathSyntax, tr: seq<State>, i: nat, t: nat)
    requires Steps(syntax, tr) && i < |tr| && t in tr[0].threads && !tr[0].threads[t].Ready?
    ensures t in tr[i].threads && !tr[i].threads[t].Ready? && tr[i].threads[t].planned == tr[0].threads[t].planned
  {
    if i > 0 {
      PlanStays(syntax, tr, i - 1, t);
      StepKeepsPlan(syntax, tr[i - 1], tr[i], t);
    }
  }

  lemma StepKeepsPlan(syntax: PathSyntax, s: State, s': State, t: nat)
    requires Next(syntax, s, s') && t in s.threads && !s.threads[t].Ready?
    ensures t in s'.threads && !s'.threads[t].Ready? && s'.threads[t].planned == s.threads[t].planned
  {
    hide PipelineSpec.PlanFor;
  }

  lemma {:induction false} StepsKeepInv(syntax: PathSyntax, tr: seq<State>, i: nat)
    requires Steps(syntax, tr) && Inv(syntax, tr[0]) && i < |tr|
    ensures Inv(syntax, tr[i])
  {
    if i > 0 {
      StepsKeepInv(syntax, tr, i - 1);
      NextKeepsInv(syntax, tr[i - 1], tr[i]);
    }
  }

  /** Thread t, about to read the current resource, reports success at the end of some future,
      whatever the others do in it. */
  ghost predicate MaySucceed(syntax: PathSyntax, s: State, t: nat) {
    exists tr :: Succeeds(syntax, tr, s, t)
  }

  ghost predicate Succeeds(syntax: PathSyntax, tr: seq<State>, s: State, t: nat) {
    && s.history != [] && Steps(syntax, tr) && |tr| > 1 && tr[0] == s && Read(syntax, s, tr[1], t, |s.history| - 1)
    && var last := tr[|tr| - 1].threads; t in last && last[t].Done? && last[t].ok
  }

  /** The exact condition: an extension update can be acknowledged if and only if at most one
      extension of the resource it reads has the id. */
  lemma UpdateIsAcknowledgedExactly(syntax: PathSyntax, s: State, t: nat, f: Extension)
    requires Inv(syntax, s) && t in s.threads && s.threads[t] == Ready(UpdateExtension(f))
    requires s.history[|s.history| - 1].extensions != []
    ensures MaySucceed(syntax, s, t) <==> Matches(f, s.history[|s.history| - 1]) <= 1
  {
    var live := s.history[|s.history| - 1];
    UpdateExtensionPlansOneWritePerMatch(syntax, f, live);
    if tr :| Succeeds(syntax, tr, s, t) {
      SuccessMeansOneMatch(syntax, tr, s, t, f);
    }
    if Matches(f, live) <= 1 {
      var tr := AcknowledgedUpdate(syntax, s, t, f);
      assert Succeeds(syntax, tr, s, t);
    }
  }

  lemma TailSteps(syntax: PathSyntax, tr: seq<State>)
    requires Steps(syntax, tr) && |tr| > 1
    ensures Steps(syntax, tr[1..])
  {
    hide Next;
    var rest := tr[1..];
    forall i | 0 <= i < |rest| - 1 ensures Next(syntax, rest[i], rest[i + 1]) {
      assert rest[i] == tr[i + 1] && rest[i + 1] == tr[i + 1 + 1];
    }
  }

  lemma ReadPlans(syntax: PathSyntax, s: State, s': State, t: nat, f: Extension)
    requires s.history != [] && s.history[|s.history| - 1].extensions != []
    requires t in s.threads && s.threads[t] == Ready(UpdateExtension(f)) && Read(syntax, s, s', t, |s.history| - 1)
    ensures t in s'.threads && !s'.threads[t].Ready?
    ensures s'.threads[t].planned == Matches(f, s.history[|s.history| - 1])
  {
    UpdateExtensionPlansOneWritePerMatch(syntax, f, s.history[|s.history| - 1]);
    hide PipelineSpec.PlanFor, Matches;
  }

  lemma AcknowledgedPlan(syntax: PathSyntax, s: State, t: nat)
    requires Inv(syntax, s) && t in s.threads && s.threads[t].Done? && s.threads[t].ok
    ensures s.threads[t].planned <= 1
  {
    hide Meaning, Fresh, LogOk;
    assert ThreadOk(syntax, s, s.threads[t]);
  }

  lemma SuccessMeansOneMatch(syntax: PathSyntax, tr: seq<State>, s: State, t: nat, f: Extension)
    requires Inv(syntax, s) && t in s.threads && s.threads[t] == Ready(UpdateExtension(f))
    requires s.history != [] && s.history[|s.history| - 1].extensions != [] && Succeeds(syntax, tr, s, t)
    ensures Matches(f, s.history[|s.history| - 1]) <= 1
  {
    hide PipelineSpec.PlanFor, Matches, Next, Inv, Read, Steps;
    var n := |tr| - 1;
    ReadPlans(syntax, s, tr[1], t, f);
    TailSteps(syntax, tr);
    PlanStays(syntax, tr[1..], n - 1, t);
    StepsKeepInv(syntax, tr, n);
    AcknowledgedPlan(syntax, tr[n], t);
  }

  ghost function AfterRead(s: State, t: nat, ps: seq<Spec>): State
    requires t in s.threads && s.history != []
  {
    var req, live := s.threads[t].req, |s.history| - 1;
    s.(threads := s.threads[t := if ps == [] then Done(req, true, 0, 0) else Sending(req, live, live, ps, 0, |ps|)])
  }

  /** The first PUT of a handler that nobody overtook. */
  ghost function AfterPut(s: State, t: nat, ps: seq<Spec>): State
    requires t in s.threads && s.history != [] && ps != []
  {
    var req, live := s.threads[t].req, |s.history| - 1;
    s.(history := s.history + [ps[0]], log := s.log + [Entry(t, req, live)],
       threads := s.threads[t := if |ps| == 1 then Done(req, true, 1, 1)
                                 else Sending(req, live, live, ps[1..], 1, |ps|)])
  }

  /** Thread t reads the current resource and PUTs once. */
  lemma ReadAndPut(syntax: PathSyntax, s: State, t: nat, ps: seq<Spec>)
    requires s.history != [] && t in s.threads && s.threads[t].Ready? && !s.threads[t].req.ProcessCreds?
    requires PlanFor(syntax, s.threads[t].req, s.history[|s.history| - 1]) == Puts(ps)
    ensures Read(syntax, s, AfterRead(s, t, ps), t, |s.history| - 1)
    ensures ps != [] ==> Put(AfterRead(s, t, ps), AfterPut(s, t, ps), t, Answered)
  {
    hide PipelineSpec.PlanFor;
    if ps != [] {
      assert AfterRead(s, t, ps).threads[t := AfterPut(s, t, ps).threads[t]] == AfterPut(s, t, ps).threads;
    }
  }

  lemma AcknowledgedUpdate(syntax: PathSyntax, s: State, t: nat, f: Extension) returns (tr: seq<State>)
    requires s.history != [] && t in s.threads && s.threads[t] == Ready(UpdateExtension(f))
    requires s.history[|s.history| - 1].extensions != []
    requires Matches(f, s.history[|s.history| - 1]) <= 1
    ensures Succeeds(syntax, tr, s, t)
  {
    var live := s.history[|s.history| - 1];
    UpdateExtensionPlansOneWritePerMatch(syntax, f, live);
    var ps := PlanFor(syntax, UpdateExtension(f), live).specs;
    hide PipelineSpec.PlanFor, Matches;
    ReadAndPut(syntax, s, t, ps);
    var s1 := AfterRead(s, t, ps);
    tr := if ps == [] then [s, s1] else [s, s1, AfterPut(s, t, ps)];
    hide Read, Put;
    assert Next(syntax, s, s1);
    assert ps != [] ==> Next(syntax, s1, AfterPut(s, t, ps));
  }

  /** A handler with more than one planned write, read and PUT without interference: its second
      PUT carries the version of its read and is refused. */
  lemma FirstPutThenConflict(syntax: PathSyntax, s: State, t: nat, ps: seq<Spec>) returns (tr: seq<State>)
    requires s.history != [] && t in s.threads && s.threads[t].Ready? && !s.threads[t].req.ProcessCreds?
    requires PlanFor(syntax, s.threads[t].req, s.history[|s.history| - 1]) == Puts(ps) && |ps| > 1
    ensures |tr| == 4 && tr[0] == s
    ensures Next(syntax, tr[0], tr[1]) && Next(syntax, tr[1], tr[2]) && Next(syntax, tr[2], tr[3])
    ensures tr[3].history == s.history + [ps[0]]
    ensures tr[3].threads == s.threads[t := Done(s.threads[t].req, false, 1, |ps|)]
  {
    ReadAndPut(syntax, s, t, ps);
    var s2, s3 := AfterRead(s, t, ps), AfterPut(s, t, ps);
    var s4 := s3.(threads := s3.threads[t := Done(s.threads[t].req, false, 1, |ps|)]);
    hide PipelineSpec.PlanFor;
    assert Put(s3, s4, t, Answered);
    tr := [s, s2, s3, s4];
  }

  lemma PlannedUpdates(syntax: PathSyntax, spec: Spec, f: Extension) returns (ps: seq<Spec>)
    requires SpecInv(spec) && Matches(f, spec) > 1
    ensures PlanFor(syntax, UpdateExtension(f), spec) == Puts(ps)
    ensures |ps| == Matches(f, spec) && ps[0] == Apply(syntax, UpdateExtension(f), spec)
  {
    UpdateExtensionPlansOneWritePerMatch(syntax, f, spec);
    PlanIsApply(syntax, UpdateExtension(f), spec);
    ps := PlanFor(syntax, UpdateExtension(f), spec).specs;
    hide PipelineSpec.PlanFor, Matches, PipelineSpec.Apply;
  }

  lemma StartUpdate(syntax: PathSyntax, s: State, f: Extension) returns (s': State)
    requires s.threads == map[]
    ensures s' == s.(threads := map[0 := Ready(UpdateExtension(f))]) && Next(syntax, s, s')
  {
    s' := s.(threads := map[0 := Ready(UpdateExtension(f))]);
    assert Start(s, s', 0, UpdateExtension(f)) by { assert s.issued + {} == s.issued; }
  }

  /** From any resource with repeated ids there is a run in which the update's first write is
      committed, the sequential meaning and all, and the handler reports a failure. */
  lemma RepeatedIdCommitsAndFails(syntax: PathSyntax, spec: Spec, issued: set<string>, f: Extension)
    returns (tr: seq<State>)
    requires Init(State([spec], [], map[], issued)) && Matches(f, spec) > 1
    ensures Run(syntax, tr) && tr[0].history == [spec]
    ensures var last := tr[|tr| - 1];
            && last.history == [spec, Apply(syntax, UpdateExtension(f), spec)]
            && last.threads == map[0 := Done(UpdateExtension(f), false, 1, Matches(f, spec))]
  {
    hide PipelineSpec.PlanFor, Matches, PipelineSpec.Apply, PipelineSpec.SpecInv, PipelineSpec.Ids, Next;
    var ps := PlannedUpdates(syntax, spec, f);
    var s0 := State([spec], [], map[], issued);
    var s1 := StartUpdate(syntax, s0, f);
    var rest := FirstPutThenConflict(syntax, s1, 0, ps);
    tr := [s0, s1, rest[1], rest[2], rest[3]];
  }

  // ---- credentials ----

  /** What the log knows of credential passes: the copy each was handed had no credentials, and
      its own are new to the resource. */
  ghost predicate PassesOk(s: State) {
    && |s.history| == |s.log| + 1
    && forall k :: 0 <= k < |s.log| && s.log[k].req.ProcessCreds? ==> PassOk(s.history, s.log[k], k)
  }

  ghost predicate PassOk(history: seq<Spec>, e: Entry, k: nat)
    requires e.req.ProcessCreds? && k < |history|
  {
    e.seen <= k && history[e.seen].dbCreds == Empty && history[k].dbCreds != Generated(e.req.serial)
  }

  lemma PassIsNew(syntax: PathSyntax, s: State, t: nat)
    requires Inv(syntax, s) && t in s.threads && s.threads[t].Sending? && s.threads[t].commits == 0
    requires s.threads[t].req.ProcessCreds? && s.threads[t].base == |s.history| - 1
    ensures PassOk(s.history, Entry(t, s.threads[t].req, s.threads[t].seen), |s.history| - 1)
  {
    hide PipelineSpec.Apply, PipelineSpec.SpecInv, LogOk;
    assert ThreadOk(syntax, s, s.threads[t]);
    assert Owns(s.threads[t], s.threads[t].req.serial);
    assert s.threads[t].req.serial !in Ids(s.history[|s.history| - 1]);
  }

  lemma AppendPass(s: State, s': State, next: Spec, e: Entry)
    requires PassesOk(s) && s'.history == s.history + [next] && s'.log == s.log + [e]
    requires e.req.ProcessCreds? ==> PassOk(s.history, e, |s.history| - 1)
    ensures PassesOk(s')
  {
    forall k | 0 <= k < |s'.log| && s'.log[k].req.ProcessCreds? ensures PassOk(s'.history, s'.log[k], k) {
      assert PassOk(s.history, s'.log[k], k);
    }
  }

  lemma CommitKeepsPasses(syntax: PathSyntax, s: State, s': State, t: nat, reply: Reply)
    requires Inv(syntax, s) && PassesOk(s) && Commit(s, s', t, reply)
    ensures PassesOk(s')
  {
    hide PipelineSpec.Apply, PipelineSpec.NewId, Inv, PassesOk, PassOk;
    CommitWritesApply(syntax, s, s', t, reply);
    if s.threads[t].req.ProcessCreds? {
      PassIsNew(syntax, s, t);
    }
    AppendPass(s, s', s.threads[t].rest[0], Entry(t, s.threads[t].req, s.threads[t].seen));
  }

  lemma NextKeepsPasses(syntax: PathSyntax, s: State, s': State)
    requires Inv(syntax, s) && PassesOk(s) && Next(syntax, s, s')
    ensures PassesOk(s')
  {
    hide PipelineSpec.Apply, PipelineSpec.PlanFor, Inv, PipelineSpec.NewId, PassesOk;
    if t, reply :| Put(s, s', t, reply) && s.threads[t].base == |s.history| - 1 && !reply.Refused? {
      CommitKeepsPasses(syntax, s, s', t, reply);
    } else {
      assert s'.history == s.history && s'.log == s.log;
      SameLogSamePasses(s, s');
    }
  }

  lemma SameLogSamePasses(s: State, s': State)
    requires PassesOk(s) && s'.history == s.history && s'.log == s.log
    ensures PassesOk(s')
  {
  }

  lemma NoPassesYet(s: State)
    requires Init(s)
    ensures PassesOk(s)
  {
  }

  lemma {:induction false} RunKeepsPasses(syntax: PathSyntax, tr: seq<State>, i: nat)
    requires Run(syntax, tr) && i < |tr|
    ensures PassesOk(tr[i])
  {
    if i == 0 {
      NoPassesYet(tr[0]);
    }
    hide PassesOk, Inv, Next, Init;
    if i > 0 {
      RunKeepsPasses(syntax, tr, i - 1);
      RunInv(syntax, tr, i - 1);
      NextKeepsPasses(syntax, tr[i - 1], tr[i]);
    }
  }

  lemma OnlyCredsRequestsWriteCreds(syntax: PathSyntax, r: Request, spec: Spec)
    ensures Apply(syntax, r, spec).dbCreds == if r.ProcessCreds? then Generated(r.serial) else spec.dbCreds
  {
  }

  /** Non-empty credentials of one version are those of every later version. */
  ghost predicate CredsNeverChange(history: seq<Spec>) {
    forall a, b :: 0 <= a <= b < |history| && history[a].dbCreds != Empty ==> history[b].dbCreds == history[a].dbCreds
  }

  /** Every committed credential pass found the guard on the live resource as on the copy it was
      handed; the live resource is the version its commit came upon. */
  ghost predicate GuardsAgree(s: State)
    requires |s.history| == |s.log| + 1
  {
    forall k :: 0 <= k < |s.log| && s.log[k].req.ProcessCreds? && s.log[k].seen <= k ==>
      (s.history[s.log[k].seen].dbCreds == Empty <==> s.history[k].dbCreds == Empty)
  }

  lemma {:induction false} CredsStay(syntax: PathSyntax, s: State, a: nat, b: nat)
    requires Meaning(syntax, s) && PassesOk(s) && GuardsAgree(s)
    requires a <= b < |s.history| && s.history[a].dbCreds != Empty
    ensures s.history[b].dbCreds == s.history[a].dbCreds
    decreases b
  {
    hide Meaning, PassesOk, GuardsAgree;
    if a < b {
      assert |s.history| == |s.log| + 1 by { Versions(syntax, s); }
      CredsStay(syntax, s, a, b - 1);
      CommitWithGuard(syntax, s, b - 1);
    }
  }

  lemma Versions(syntax: PathSyntax, s: State)
    requires Meaning(syntax, s)
    ensures |s.history| == |s.log| + 1
  {
  }

  lemma CommitWithGuard(syntax: PathSyntax, s: State, k: nat)
    requires Meaning(syntax, s) && PassesOk(s) && GuardsAgree(s)
    requires k < |s.log| && s.history[k].dbCreds != Empty
    ensures s.history[k + 1].dbCreds == s.history[k].dbCreds
  {
    hide PipelineSpec.Apply, PipelineSpec.SpecInv, PipelineSpec.Ids;
    OnlyCredsRequestsWriteCreds(syntax, s.log[k].req, s.history[k]);
  }

  /** The exact condition for write-once credentials: no committed credentials are ever replaced
      if and only if every committed pass was handed a copy that agreed with the live resource on
      whether there are any. */
  lemma CredsAreWriteOnceExactly(syntax: PathSyntax, tr: seq<State>, i: nat)
    requires Run(syntax, tr) && i < |tr|
    ensures |tr[i].history| == |tr[i].log| + 1
    ensures CredsNeverChange(tr[i].history) <==> GuardsAgree(tr[i])
  {
    var s := tr[i];
    RunInv(syntax, tr, i);
    RunKeepsPasses(syntax, tr, i);
    hide PipelineSpec.Apply, PipelineSpec.SpecInv, PipelineSpec.Ids;
    if GuardsAgree(s) {
      forall a, b | 0 <= a <= b < |s.history| && s.history[a].dbCreds != Empty
        ensures s.history[b].dbCreds == s.history[a].dbCreds
      {
        CredsStay(syntax, s, a, b);
      }
    }
    if CredsNeverChange(s.history) {
      forall k | 0 <= k < |s.log| && s.log[k].req.ProcessCreds? ensures s.history[k].dbCreds == Empty {
        assert PassOk(s.history, s.log[k], k);
        assert s.history[k + 1] == Apply(syntax, s.log[k].req, s.history[k]);
        OnlyCredsRequestsWriteCreds(syntax, s.log[k].req, s.history[k]);
      }
    }
  }

  /** In particular when every committed pass was handed the very version it wrote upon. */
  lemma FreshCopiesMakeCredsWriteOnce(syntax: PathSyntax, tr: seq<State>, i: nat)
    requires Run(syntax, tr) && i < |tr|
    requires forall k :: 0 <= k < |tr[i].log| && tr[i].log[k].req.ProcessCreds? ==> tr[i].log[k].seen == k
    ensures CredsNeverChange(tr[i].history)
  {
    CredsAreWriteOnceExactly(syntax, tr, i);
  }

  /** One credential pass of thread t, from its start to its commit, handed version 0. */
  lemma CredsPass(syntax: PathSyntax, s: State, t: nat, serial: string, next: Spec) returns (tr: seq<State>)
    requires s.history != [] && s.history[0].dbCreds == Empty && t !in s.threads && serial !in s.issued + {""}
    requires next == s.history[|s.history| - 1].(dbCreds := Generated(serial), serviceCreds := Generated(serial))
    ensures |tr| == 4 && tr[0] == s
    ensures Next(syntax, tr[0], tr[1]) && Next(syntax, tr[1], tr[2]) && Next(syntax, tr[2], tr[3])
    ensures tr[3].history == s.history + [next] && tr[3].threads.Keys == s.threads.Keys + {t}
    ensures tr[3].issued == s.issued + {serial}
  {
    var req, live := ProcessCreds(serial), |s.history| - 1;
    var s1 := s.(threads := s.threads[t := Ready(req)], issued := s.issued + {serial});
    var s2 := s1.(threads := s1.threads[t := Sending(req, 0, live, [next], 0, 1)]);
    var s3 := s2.(history := s.history + [next], log := s.log + [Entry(t, req, 0)],
                  threads := s2.threads[t := Done(req, true, 1, 1)]);
    assert Start(s, s1, t, req);
    assert Read(syntax, s1, s2, t, 0);
    assert Put(s2, s3, t, Answered);
    tr := [s, s1, s2, s3];
  }

  const BLANK := Spec("", Empty, Empty, [], [], [], [])

  lemma BlankIsInitial()
    ensures Init(State([BLANK], [], map[], {}))
  {
  }

  /** With one they are not: two passes are handed the copy without credentials, and the pair
      the first one wrote is replaced by the second. */
  lemma StaleCopyReplacesCreds(syntax: PathSyntax) returns (tr: seq<State>)
    ensures Run(syntax, tr)
    ensures var h := tr[|tr| - 1].history;
            |h| == 3 && h[1].dbCreds == Generated("a") && h[2].dbCreds == Generated("b")
  {
    hide Next, Init, SpecInv, Ids;
    var v1 := BLANK.(dbCreds := Generated("a"), serviceCreds := Generated("a"));
    var v2 := BLANK.(dbCreds := Generated("b"), serviceCreds := Generated("b"));
    BlankIsInitial();
    var a := CredsPass(syntax, State([BLANK], [], map[], {}), 1, "a", v1);
    var b := CredsPass(syntax, a[3], 2, "b", v2);
    tr := [a[0], a[1], a[2], a[3], b[1], b[2], b[3]];
  }
}
