/** initStatefulSet: `cockroach init` is run by the reconciler that created the marker secret.
    Any number of reconcilers run at once, each may crash between two steps, a read of the marker
    may be stale or fail, a create may fail or its reply be lost, and the marker may be deleted or
    created by somebody else, as by the secrets group when the pull secret has the pipeline's name. */
module DatabaseInit {

  datatype Step = Polling | Looking | Creating | Executing | Waiting | Stopped

  /** One run of the init command: by whom, the lifetime in which its reconciler created the marker,
      the lifetime in which the command ran, and whether a marker stood then. */
  datatype InitRun = InitRun(who: nat, created: nat, ran: nat, marked: bool)

  /** `life` numbers the lifetimes of the marker secret; lives says in which one a reconciler
      created it. */
  datatype State = State(marker: bool, life: nat, steps: map<nat, Step>, lives: map<nat, nat>, execs: seq<InitRun>)

  ghost predicate Init(s: State) {
    s.steps == map[] && s.lives == map[] && s.execs == []
  }

  ghost predicate Move(s: State, s': State, r: nat, from: Step, next: Step) {
    r in s.steps && s.steps[r] == from && s' == s.(steps := s.steps[r := next])
  }

  /** A new reconcile; reconciles of one request may overlap. */
  ghost predicate Begin(s: State, s': State, r: nat) {
    r !in s.steps && s' == s.(steps := s.steps[r := Polling])
  }

  /** The pod poll: a timeout or an error skips the marker altogether. */
  ghost predicate Poll(s: State, s': State, r: nat, running: bool) {
    Move(s, s', r, Polling, if running then Looking else Waiting)
  }

  /** The read of the marker through the cache: any answer at any time, and an error counts as absent. */
  ghost predicate Look(s: State, s': State, r: nat, found: bool) {
    Move(s, s', r, Looking, if found then Waiting else Creating)
  }

  /** Atomic create-if-absent, with its reply. */
  ghost predicate Create(s: State, s': State, r: nat) {
    r in s.steps && s.steps[r].Creating? && !s.marker
    && s' == s.(marker := true, steps := s.steps[r := Executing], lives := s.lives[r := s.life])
  }

  /** The create took effect but the reconciler got an error, and returns. */
  ghost predicate CreateLost(s: State, s': State, r: nat) {
    r in s.steps && s.steps[r].Creating? && !s.marker
    && s' == s.(marker := true, steps := s.steps[r := Stopped])
  }

  ghost predicate CreateFails(s: State, s': State, r: nat) {
    Move(s, s', r, Creating, Stopped)
  }

  ghost predicate Exec(s: State, s': State, r: nat, ok: bool) {
    r in s.steps && s.steps[r].Executing? && r in s.lives
    && s' == s.(steps := s.steps[r := if ok then Waiting else Stopped],
                execs := s.execs + [InitRun(r, s.lives[r], s.life, s.marker)])
  }

  ghost predicate Crash(s: State, s': State, r: nat) {
    r in s.steps && s' == s.(steps := s.steps[r := Stopped])
  }

  ghost predicate DeleteMarker(s: State, s': State) {
    s.marker && s' == s.(marker := false, life := s.life + 1)
  }

  ghost predicate ForeignMarker(s: State, s': State) {
    !s.marker && s' == s.(marker := true)
  }

  ghost predicate Next(s: State, s': State) {
    || (exists r :: Begin(s, s', r))
    || (exists r, running :: Poll(s, s', r, running))
    || (exists r, found :: Look(s, s', r, found))
    || (exists r :: Create(s, s', r))
    || (exists r :: CreateLost(s, s', r))
    || (exists r :: CreateFails(s, s', r))
    || (exists r, ok :: Exec(s, s', r, ok))
    || (exists r :: Crash(s, s', r))
    || DeleteMarker(s, s')
    || ForeignMarker(s, s')
  }

  ghost predicate Steps(tr: seq<State>) {
    tr != [] && forall i :: 0 <= i < |tr| - 1 ==> Next(tr[i], tr[i + 1])
  }

  ghost predicate Run(tr: seq<State>) {
    Steps(tr) && Init(tr[0])
  }

  /** Reconciler r created the marker of lifetime l and may still run init for it. */
  ghost predicate MayExec(s: State, r: nat, l: nat) {
    r in s.steps && s.steps[r].Executing? && r in s.lives && s.lives[r] == l
  }

  ghost predicate Used(s: State, l: nat) {
    exists i :: 0 <= i < |s.execs| && s.execs[i].created == l
  }

  /** A lifetime's right to init is used up, or it belongs to one reconciler, or, in the current
      lifetime while there is no marker, it is still to be won. */
  ghost predicate Inv(s: State) {
    && (forall r <- s.steps :: s.steps[r].Executing? ==> r in s.lives)
    && (forall r: nat, l: nat :: MayExec(s, r, l) ==> l <= s.life && (l == s.life ==> s.marker) && !Used(s, l))
    && (forall r: nat, q: nat, l: nat :: MayExec(s, r, l) && MayExec(s, q, l) ==> r == q)
    && (forall i :: 0 <= i < |s.execs| ==> s.execs[i].created <= s.life && (s.execs[i].created == s.life ==> s.marker))
    && (forall i, j :: 0 <= i < j < |s.execs| ==> s.execs[i].created != s.execs[j].created)
  }

  lemma NextKeepsInv(s: State, s': State)
    requires Inv(s) && Next(s, s')
    ensures Inv(s')
  {
    if r :| Create(s, s', r) {
      forall q: nat, l: nat | q != r && MayExec(s', q, l) ensures MayExec(s, q, l) && l < s.life {
        assert MayExec(s, q, l);
      }
      assert forall l: nat :: MayExec(s', r, l) ==> l == s.life;
    } else if r, ok :| Exec(s, s', r, ok) {
      assert MayExec(s, r, s.lives[r]);
      forall q: nat, l: nat | MayExec(s', q, l) ensures MayExec(s, q, l) && q != r && l != s.lives[r] {
        assert q != r && MayExec(s, q, l);
      }
    } else {
      OthersOnlyLoseRights(s, s');
    }
  }

  /** Every other step lets reconcilers lose rights at most, and may end the lifetime. */
  ghost predicate LosesRights(s: State, s': State) {
    && s'.execs == s.execs && s'.lives == s.lives
    && (s'.life > s.life || (s'.life == s.life && (s.marker ==> s'.marker)))
    && forall r <- s'.steps :: s'.steps[r].Executing? ==> r in s.steps && s.steps[r].Executing?
  }

  lemma OthersLoseRights(s: State, s': State)
    requires Next(s, s')
    requires !(exists r :: Create(s, s', r)) && !(exists r, ok :: Exec(s, s', r, ok))
    ensures LosesRights(s, s')
  {
  }

  lemma OthersOnlyLoseRights(s: State, s': State)
    requires Inv(s) && Next(s, s')
    requires !(exists r :: Create(s, s', r)) && !(exists r, ok :: Exec(s, s', r, ok))
    ensures Inv(s')
  {
    OthersLoseRights(s, s');
    hide Next;
    assert forall q: nat, l: nat :: MayExec(s', q, l) ==> MayExec(s, q, l);
  }

  lemma {:induction false} RunInv(tr: seq<State>, i: nat)
    requires Run(tr) && i < |tr|
    ensures Inv(tr[i])
  {
    if i > 0 {
      RunInv(tr, i - 1);
      NextKeepsInv(tr[i - 1], tr[i]);
    }
  }

  /** Over all runs init is executed at most once for each successful create of the marker. */
  lemma InitRunsAtMostOncePerCreate(tr: seq<State>, i: nat)
    requires Run(tr) && i < |tr|
    ensures forall a, b :: 0 <= a < b < |tr[i].execs| ==> tr[i].execs[a].created != tr[i].execs[b].created
  {
    RunInv(tr, i);
  }

  // ---- the reconciler as it is written, with others at work between any two of its steps ----

  /** How often reconciler r has executed. */
  function RunsBy(execs: seq<InitRun>, r: nat): nat {
    if execs == [] then 0
    else RunsBy(execs[..|execs| - 1], r) + if execs[|execs| - 1].who == r then 1 else 0
  }

  /** How often reconciler r has created the marker and learned so. */
  ghost function CreatesBy(tr: seq<State>, r: nat): nat {
    if |tr| < 2 then 0
    else CreatesBy(tr[..|tr| - 1], r) + if Create(tr[|tr| - 2], tr[|tr| - 1], r) then 1 else 0
  }

  /** Reconciler r, about to create, came upon somebody else's marker. */
  ghost predicate MetMarker(tr: seq<State>, from: nat, r: nat) {
    exists i :: from <= i < |tr| && tr[i].marker && r in tr[i].steps && tr[i].steps[r].Creating?
  }

  lemma MetSince(tr: seq<State>, from: nat, later: nat, r: nat)
    requires from <= later
    ensures MetMarker(tr, later, r) ==> MetMarker(tr, from, r)
  {
  }

  lemma MetBefore(before: seq<State>, tr: seq<State>, from: nat, r: nat)
    requires before <= tr
    ensures MetMarker(before, from, r) ==> MetMarker(tr, from, r)
  {
  }

  lemma OneStepMore(tr: seq<State>, next: State, r: nat)
    requires tr != []
    ensures CreatesBy(tr + [next], r) == CreatesBy(tr, r) + if Create(tr[|tr| - 1], next, r) then 1 else 0
  {
    assert (tr + [next])[..|tr|] == tr;
  }

  datatype CreateAnswer = Created | ReplyLost | Error

  /** What one reconciler meets: the two API preliminaries, the pod poll, the marker read, the
      create, the exec and the readiness poll. */
  datatype Answers = Answers(apiOk: bool, podRunning: bool, found: bool, create: CreateAnswer, execOk: bool,
      ready: bool)

  /** The cluster, as the run so far. */
  class Cluster {
    var tr: seq<State>

    ghost predicate Valid()
      reads this
    {
      Steps(tr)
    }

    function Now(): State
      reads this
      requires tr != []
    {
      tr[|tr| - 1]
    }

    ghost predicate At(r: nat, step: Step)
      reads this
    {
      Valid() && r in Now().steps && Now().steps[r] == step
    }

    /** Whatever the others do meanwhile, short of moving reconciler r on. */
    method Others(r: nat, step: Step)
      requires At(r, step)
      modifies this
      ensures At(r, step) && old(tr) <= tr && RunsBy(Now().execs, r) == old(RunsBy(Now().execs, r))
      ensures CreatesBy(tr, r) == old(CreatesBy(tr, r))
      ensures r in old(Now().lives) ==> r in Now().lives && Now().lives[r] == old(Now().lives[r])
    {
    }

    method Advance(r: nat, next: State)
      requires Valid() && Next(Now(), next) && r in next.steps
      modifies this
      ensures At(r, next.steps[r]) && tr == old(tr) + [next]
      ensures CreatesBy(tr, r) == old(CreatesBy(tr, r)) + if Create(old(Now()), next, r) then 1 else 0
    {
      OneStepMore(tr, next, r);
      tr := tr + [next];
    }

    /** Atomic create-if-absent; an error may mean that it took effect all the same. */
    method CreateMarker(r: nat, answer: CreateAnswer) returns (ok: bool)
      requires At(r, Creating)
      modifies this
      ensures ok <==> answer.Created? && !old(Now().marker)
      ensures CreatesBy(tr, r) == old(CreatesBy(tr, r)) + if ok then 1 else 0
      ensures old(tr) <= tr && At(r, if ok then Executing else Stopped) && (ok ==> r in Now().lives)
      ensures Now().marker == (old(Now().marker) || !answer.Error?) && Now().execs == old(Now().execs)
    {
      var s := Now();
      ok := false;
      var gone := s.(steps := s.steps[r := Stopped]);
      if s.marker || answer.Error? {
        assert CreateFails(s, gone, r);
        Advance(r, gone);
      } else if answer.ReplyLost? {
        assert CreateLost(s, gone.(marker := true), r);
        Advance(r, gone.(marker := true));
      } else {
        ok := true;
        var won := s.(marker := true, steps := s.steps[r := Executing], lives := s.lives[r := s.life]);
        assert Create(s, won, r);
        Advance(r, won);
      }
    }

    method PollPod(r: nat, running: bool)
      requires At(r, Polling)
      modifies this
      ensures old(tr) <= tr && At(r, if running then Looking else Waiting) && Now().execs == old(Now().execs)
      ensures CreatesBy(tr, r) == old(CreatesBy(tr, r))
    {
      var polled := Now().(steps := Now().steps[r := if running then Looking else Waiting]);
      assert Poll(Now(), polled, r, running);
      Advance(r, polled);
    }

    method LookForMarker(r: nat, found: bool)
      requires At(r, Looking)
      modifies this
      ensures old(tr) <= tr && At(r, if found then Waiting else Creating) && Now().execs == old(Now().execs)
      ensures CreatesBy(tr, r) == old(CreatesBy(tr, r))
    {
      var looked := Now().(steps := Now().steps[r := if found then Waiting else Creating]);
      assert Look(Now(), looked, r, found);
      Advance(r, looked);
    }

    /** Behind the pod poll: look for the marker, create it, and only then run the command. */
    method MarkAndExec(r: nat, answers: Answers) returns (ok: bool, created: bool, execs: nat)
      requires At(r, Looking)
      modifies this
      ensures old(tr) <= tr && At(r, if ok then Waiting else Stopped)
      ensures RunsBy(Now().execs, r) == old(RunsBy(Now().execs, r)) + execs
      ensures CreatesBy(tr, r) == old(CreatesBy(tr, r)) + if created then 1 else 0
      ensures execs == if created then 1 else 0
      ensures created ==> !answers.found && answers.create.Created?
      ensures !answers.found && answers.create.Created? ==> created || MetMarker(tr, |old(tr)|, r)
      ensures ok <==> answers.found || (created && answers.execOk)
    {
      hide Next, Steps, CreatesBy, Create, RunsBy;
      created, execs := false, 0;
      Others(r, Looking);
      LookForMarker(r, answers.found);
      if answers.found {
        return true, created, execs;
      }
      Others(r, Creating);
      ghost var before := tr;
      created := CreateMarker(r, answers.create);
      ok := created;
      assert !created && before[|before| - 1].marker ==> MetMarker(tr, |old(tr)|, r) by {
        assert tr[|before| - 1] == before[|before| - 1];
      }
      if created {
        Others(r, Executing);
        execs := execs + 1;
        ok := answers.execOk;
        Execute(r, answers.execOk);
      }
    }

    /** Every behaviour of the reconciler, under any interference, is a run of the step system, in
        which it executes the init command exactly as often as it creates the marker itself: once if
        the create is let through, which only a marker of somebody else prevents, and else never.
        And it reports success exactly when nothing it had to do has failed. */
    method InitStatefulSet(r: nat, answers: Answers) returns (ok: bool, created: bool, execs: nat)
      requires At(r, Polling)
      modifies this
      ensures old(tr) <= tr && At(r, if ok then Waiting else Stopped)
      ensures RunsBy(Now().execs, r) == old(RunsBy(Now().execs, r)) + execs
      ensures CreatesBy(tr, r) == old(CreatesBy(tr, r)) + if created then 1 else 0
      ensures execs == if created then 1 else 0
      ensures created ==> answers.apiOk && answers.podRunning && !answers.found && answers.create.Created?
      ensures answers.apiOk && answers.podRunning && !answers.found && answers.create.Created? ==>
                created || MetMarker(tr, |old(tr)|, r)
      ensures ok <==>
                && answers.apiOk && answers.ready
                && (!answers.podRunning || answers.found || (created && answers.execOk))
    {
      hide Next, Steps, CreatesBy, RunsBy, MetMarker;
      created, execs := false, 0;
      Others(r, Polling);
      if !answers.apiOk {
        Stop(r);
        return false, created, execs;
      }
      PollPod(r, answers.podRunning);
      if answers.podRunning {
        ghost var before := tr;
        ok, created, execs := MarkAndExec(r, answers);
        MetSince(tr, |old(tr)|, |before|, r);
        if !ok {
          return;
        }
      }
      ghost var before := tr;
      Others(r, Waiting);
      MetBefore(before, tr, |old(tr)|, r);
      if !answers.ready {
        before := tr;
        Stop(r);
        MetBefore(before, tr, |old(tr)|, r);
        return false, created, execs;
      }
      return true, created, execs;
    }

    method Execute(r: nat, execOk: bool)
      requires At(r, Executing) && r in Now().lives
      modifies this
      ensures old(tr) <= tr && At(r, if execOk then Waiting else Stopped)
      ensures Now().execs == old(Now().execs) + [InitRun(r, old(Now().lives[r]), old(Now().life), old(Now().marker))]
      ensures RunsBy(Now().execs, r) == old(RunsBy(Now().execs, r)) + 1
      ensures CreatesBy(tr, r) == old(CreatesBy(tr, r))
    {
      var s := Now();
      var done := s.(steps := s.steps[r := if execOk then Waiting else Stopped],
                     execs := s.execs + [InitRun(r, s.lives[r], s.life, s.marker)]);
      assert Exec(s, done, r, execOk);
      assert done.execs[..|s.execs|] == s.execs;
      Advance(r, done);
    }

    method Stop(r: nat)
      requires Valid() && r in Now().steps
      modifies this
      ensures old(tr) <= tr && At(r, Stopped) && Now().execs == old(Now().execs)
      ensures CreatesBy(tr, r) == old(CreatesBy(tr, r))
    {
      var gone := Now().(steps := Now().steps[r := Stopped]);
      assert Crash(Now(), gone, r);
      Advance(r, gone);
    }
  }
}
