/** How often the database can be initialised while one marker secret stands: at most once exactly as
    long as no deletion falls between a create and its exec. And when it can be initialised at all. */
module InitOnce {
  import opened DatabaseInit

  // ---- at most once while a marker stands, exactly ----

  /** A creator has not executed yet, and its marker still stands. */
  ghost predicate MidInit(s: State) {
    exists r: nat :: MayExec(s, r, s.life)
  }

  /** A creator has not executed yet, and its marker is gone. */
  ghost predicate StaleHolder(s: State) {
    exists r: nat, l: nat :: MayExec(s, r, l) && l < s.life
  }

  ghost predicate OrderlyStep(s: State, s': State) {
    DeleteMarker(s, s') ==> !MidInit(s)
  }

  /** No deletion falls between a create and its exec. */
  ghost predicate Orderly(tr: seq<State>) {
    forall i :: 0 <= i < |tr| - 1 ==> OrderlyStep(tr[i], tr[i + 1])
  }

  ghost predicate OncePerLifetime(s: State) {
    forall a, b :: 0 <= a < b < |s.execs| ==> s.execs[a].ran != s.execs[b].ran
  }

  /** No two inits run while one marker stands. A lifetime also covers the time before its marker. */
  ghost predicate OncePerMarker(s: State) {
    forall a, b :: 0 <= a < b < |s.execs| && s.execs[a].marked && s.execs[b].marked ==> s.execs[a].ran != s.execs[b].ran
  }

  ghost predicate OwnLifetimes(s: State) {
    forall i :: 0 <= i < |s.execs| ==> s.execs[i].ran == s.execs[i].created
  }

  lemma OrderlyStepStaysFresh(s: State, s': State)
    requires Inv(s) && Next(s, s') && !StaleHolder(s) && OrderlyStep(s, s')
    ensures !StaleHolder(s') && (OwnLifetimes(s) ==> OwnLifetimes(s'))
  {
    if r :| Create(s, s', r) {
      assert forall q: nat, l: nat :: q != r && MayExec(s', q, l) ==> MayExec(s, q, l);
    } else if r, ok :| Exec(s, s', r, ok) {
      assert MayExec(s, r, s.lives[r]);
      assert forall q: nat, l: nat :: MayExec(s', q, l) ==> MayExec(s, q, l);
    } else {
      OthersLoseRights(s, s');
      assert s'.life > s.life ==> DeleteMarker(s, s') && s'.life == s.life + 1;
      hide Next;
      assert forall q: nat, l: nat :: MayExec(s', q, l) ==> MayExec(s, q, l);
      assert forall q: nat, l: nat :: MayExec(s, q, l) ==> l == s.life;
    }
  }

  lemma DisorderlyStepLeavesStale(s: State, s': State)
    requires DeleteMarker(s, s') && MidInit(s)
    ensures StaleHolder(s')
  {
    var r: nat :| MayExec(s, r, s.life);
    assert MayExec(s', r, s.life);
  }

  lemma {:induction false} OrderlyStaysFresh(tr: seq<State>, i: nat)
    requires Steps(tr) && Inv(tr[0]) && !StaleHolder(tr[0]) && Orderly(tr) && i < |tr|
    ensures Inv(tr[i]) && !StaleHolder(tr[i]) && (OwnLifetimes(tr[0]) ==> OwnLifetimes(tr[i]))
  {
    hide Next, Inv, StaleHolder, OwnLifetimes, OrderlyStep;
    if i > 0 {
      OrderlyStaysFresh(tr, i - 1);
      assert OrderlyStep(tr[i - 1], tr[i - 1 + 1]);
      OrderlyStepStaysFresh(tr[i - 1], tr[i]);
      NextKeepsInv(tr[i - 1], tr[i]);
    }
  }

  /** What a deletion between create and exec does, and nothing else: it leaves a reconciler that
      will execute for a marker that is gone. */
  lemma OrderlyMeansNoStaleHolder(tr: seq<State>)
    requires Run(tr)
    ensures Orderly(tr) <==> forall i :: 0 <= i < |tr| ==> !StaleHolder(tr[i])
  {
    StartsFresh(tr[0]);
    hide Next, Inv, StaleHolder, OwnLifetimes, Init;
    if Orderly(tr) {
      forall i | 0 <= i < |tr| ensures !StaleHolder(tr[i]) {
        hide Orderly;
        OrderlyStaysFresh(tr, i);
      }
    }
    if forall i :: 0 <= i < |tr| ==> !StaleHolder(tr[i]) {
      forall i | 0 <= i < |tr| - 1 ensures OrderlyStep(tr[i], tr[i + 1]) {
        if DeleteMarker(tr[i], tr[i + 1]) && MidInit(tr[i]) {
          DisorderlyStepLeavesStale(tr[i], tr[i + 1]);
        }
      }
    }
  }

  lemma StartsFresh(s: State)
    requires Init(s)
    ensures Inv(s) && !StaleHolder(s) && OwnLifetimes(s)
  {
  }

  lemma OwnMeansOnce(s: State)
    requires Inv(s) && OwnLifetimes(s)
    ensures OncePerLifetime(s) && OncePerMarker(s)
  {
  }

  /** As long as no deletion falls between a create and its exec, init is executed at most once
      while any one marker stands. */
  lemma OrderlyRunsInitOnce(tr: seq<State>, i: nat)
    requires Run(tr) && Orderly(tr) && i < |tr|
    ensures OncePerLifetime(tr[i]) && OncePerMarker(tr[i])
  {
    StartsFresh(tr[0]);
    OrderlyStaysFresh(tr, i);
    OwnMeansOnce(tr[i]);
  }

  ghost predicate Future(s: State, tr: seq<State>) {
    Steps(tr) && tr[0] == s && Orderly(tr)
  }

  /** The exact condition, state by state: from a state whose inits all ran in their creators' own
      lifetimes, no orderly future has two inits while one marker stands, nor even in one lifetime,
      if and only if no creator is left over from an ended lifetime. */
  lemma OnceExactlyWithoutStaleHolder(s: State)
    requires Inv(s) && OwnLifetimes(s)
    ensures (forall tr | Future(s, tr) :: OncePerMarker(tr[|tr| - 1])) <==> !StaleHolder(s)
    ensures (forall tr | Future(s, tr) :: OncePerLifetime(tr[|tr| - 1])) <==> !StaleHolder(s)
  {
    if StaleHolder(s) {
      var r: nat, l: nat :| MayExec(s, r, l) && l < s.life;
      var tr := StaleHolderInitsTwice(s, r, l);
      assert Future(s, tr) && !OncePerMarker(tr[|tr| - 1]);
      assert !OncePerLifetime(tr[|tr| - 1]);
    } else {
      forall tr | Future(s, tr) ensures OncePerLifetime(tr[|tr| - 1]) && OncePerMarker(tr[|tr| - 1]) {
        hide Next, Inv, StaleHolder, OwnLifetimes, Orderly, OncePerLifetime, OncePerMarker;
        OrderlyStaysFresh(tr, |tr| - 1);
        OwnMeansOnce(tr[|tr| - 1]);
      }
    }
  }

  lemma Extend(s: State, tr: seq<State>, next: State)
    requires Future(s, tr) && Next(tr[|tr| - 1], next) && OrderlyStep(tr[|tr| - 1], next)
    ensures Future(s, tr + [next])
  {
    hide Next, OrderlyStep;
    var all := tr + [next];
    forall i | 0 <= i < |all| - 1 ensures Next(all[i], all[i + 1]) && OrderlyStep(all[i], all[i + 1]) {
      assert i < |tr| - 1 ==> all[i] == tr[i] && all[i + 1] == tr[i + 1];
    }
  }

  lemma Alone(s: State)
    ensures Future(s, [s])
  {
  }

  /** The state after reconciler r executes. */
  ghost function Executed(s: State, r: nat): State
    requires r in s.lives
  {
    s.(steps := s.steps[r := Waiting], execs := s.execs + [InitRun(r, s.lives[r], s.life, s.marker)])
  }

  lemma ExecStep(s: State, r: nat, l: nat)
    requires MayExec(s, r, l)
    ensures Next(s, Executed(s, r)) && OrderlyStep(s, Executed(s, r))
  {
    assert Exec(s, Executed(s, r), r, true);
  }

  /** Both execute while the marker is as it is. */
  lemma BothExecute(s: State, tr: seq<State>, q: nat, k: nat, r: nat, l: nat) returns (all: seq<State>)
    requires Future(s, tr) && q != r && MayExec(tr[|tr| - 1], q, k) && MayExec(tr[|tr| - 1], r, l)
    requires tr[|tr| - 1].marker
    ensures Future(s, all) && !OncePerMarker(all[|all| - 1])
  {
    var s1 := tr[|tr| - 1];
    var s2 := Executed(s1, q);
    assert MayExec(s2, r, l);
    var s3 := Executed(s2, r);
    ExecStep(s1, q, k);
    ExecStep(s2, r, l);
    hide Future, Next, OrderlyStep;
    Extend(s, tr, s2);
    Extend(s, tr + [s2], s3);
    all := tr + [s2] + [s3];
    var n := |s1.execs|;
    assert s3.execs[n].ran == s3.execs[n + 1].ran && s3.execs[n].marked && s3.execs[n + 1].marked;
  }

  lemma {:induction false} NotAmong(keys: set<nat>) returns (q: nat)
    ensures forall k <- keys :: k < q
    decreases |keys|
  {
    q := 0;
    if keys != {} {
      var k :| k in keys;
      var b := NotAmong(keys - {k});
      q := if b > k then b else k + 1;
      forall j <- keys ensures j < q {
        assert j == k || j in keys - {k};
      }
    }
  }

  /** A newcomer wins the marker while there is none, and stops short of its exec. */
  lemma NewcomerCreates(s: State, tr: seq<State>, q: nat) returns (all: seq<State>)
    requires Future(s, tr) && !tr[|tr| - 1].marker && q !in tr[|tr| - 1].steps
    ensures Future(s, all) && all != []
    ensures var last, won := tr[|tr| - 1], all[|all| - 1];
            won == last.(marker := true, steps := last.steps[q := Executing], lives := last.lives[q := last.life])
  {
    var s0 := tr[|tr| - 1];
    var s1 := s0.(steps := s0.steps[q := Polling]);
    var s2 := s0.(steps := s0.steps[q := Looking]);
    var s3 := s0.(steps := s0.steps[q := Creating]);
    var s4 := s0.(marker := true, steps := s0.steps[q := Executing], lives := s0.lives[q := s0.life]);
    assert s1.steps[q := Looking] == s2.steps && s2.steps[q := Creating] == s3.steps;
    assert s3.steps[q := Executing] == s4.steps;
    assert Begin(s0, s1, q) && Poll(s1, s2, q, true) && Look(s2, s3, q, false) && Create(s3, s4, q);
    assert Next(s0, s1) && Next(s1, s2) && Next(s2, s3) && Next(s3, s4);
    assert OrderlyStep(s0, s1) && OrderlyStep(s1, s2) && OrderlyStep(s2, s3) && OrderlyStep(s3, s4);
    hide Future, Next, OrderlyStep;
    Extend(s, tr, s1);
    Extend(s, tr + [s1], s2);
    Extend(s, tr + [s1] + [s2], s3);
    Extend(s, tr + [s1] + [s2] + [s3], s4);
    all := tr + [s1] + [s2] + [s3] + [s4];
  }

  /** A stale holder, and the next creator after it, execute while one marker stands. */
  lemma StaleHolderInitsTwice(s: State, r: nat, l: nat) returns (tr: seq<State>)
    requires Inv(s) && MayExec(s, r, l) && l < s.life
    ensures Future(s, tr) && !OncePerMarker(tr[|tr| - 1])
  {
    Alone(s);
    if q: nat :| s.marker && MayExec(s, q, s.life) {
      tr := BothExecute(s, [s], q, s.life, r, l);
    } else {
      tr := [s];
      if s.marker {
        var gone := s.(marker := false, life := s.life + 1);
        assert DeleteMarker(s, gone) && Next(s, gone) && OrderlyStep(s, gone);
        hide Future;
        Extend(s, tr, gone);
        tr := tr + [gone];
      }
      hide Future, Inv;
      tr := NewcomerThenBoth(s, tr, r, l);
    }
  }

  lemma NewcomerThenBoth(s: State, tr: seq<State>, r: nat, l: nat) returns (all: seq<State>)
    requires Future(s, tr) && !tr[|tr| - 1].marker && MayExec(tr[|tr| - 1], r, l)
    ensures Future(s, all) && !OncePerMarker(all[|all| - 1])
  {
    assert tr != [];
    hide Future, OncePerMarker;
    var last := tr[|tr| - 1];
    var q := NotAmong(last.steps.Keys);
    var won := NewcomerCreates(s, tr, q);
    assert MayExec(won[|won| - 1], q, last.life) && MayExec(won[|won| - 1], r, l);
    all := BothExecute(s, won, q, last.life, r, l);
  }

  /** Without the condition it does happen: a creator is overtaken by a deletion, a second one
      creates the marker anew, and both run init while that marker stands. */
  lemma DeletionLetsInitRunTwice() returns (tr: seq<State>)
    ensures Run(tr) && !Orderly(tr) && !OncePerMarker(tr[|tr| - 1])
  {
    var s0 := State(false, 0, map[], map[], []);
    Alone(s0);
    var before := NewcomerCreates(s0, [s0], 0);
    var last := before[|before| - 1];
    var gone := last.(marker := false, life := 1);
    assert MayExec(last, 0, 0) && MayExec(gone, 0, 0);
    assert DeleteMarker(last, gone) && MidInit(last) && Next(last, gone);
    Alone(gone);
    var after := NewcomerThenBoth(gone, [gone], 0, 0);
    hide Next, DeleteMarker, MidInit, OncePerMarker;
    tr := before + after;
    var n := |before| - 1;
    forall i | 0 <= i < |tr| - 1 ensures Next(tr[i], tr[i + 1]) {
      if i < n {
        assert tr[i] == before[i] && tr[i + 1] == before[i + 1];
      } else if i > n {
        assert tr[i] == after[i - n - 1] && tr[i + 1] == after[i - n - 1 + 1];
      }
    }
    assert tr[n] == last && tr[n + 1] == gone;
    assert !OrderlyStep(tr[n], tr[n + 1]);
  }

  // ---- at most once is all there is ----

  /** There is a marker, and no reconciler is left that may still execute. */
  ghost predicate Orphaned(s: State) {
    s.marker && forall r: nat, l: nat :: !MayExec(s, r, l)
  }

  /** A marker that somebody else created, or whose creator never learned that it did, is an
      orphan from the start, unless a creator is left over from an ended lifetime. The secrets
      group is such a somebody when the image pull secret has the pipeline's name. */
  lemma MarkersOfOthersAreOrphaned(s: State, s': State)
    requires Inv(s) && (ForeignMarker(s, s') || exists r :: CreateLost(s, s', r))
    ensures Orphaned(s') <==> !StaleHolder(s)
  {
    assert forall q: nat, l: nat :: MayExec(s', q, l) <==> MayExec(s, q, l);
    assert forall q: nat, l: nat :: MayExec(s, q, l) ==> l < s.life;
  }

  lemma OrphanedStays(s: State, s': State)
    requires Inv(s) && Orphaned(s) && Next(s, s') && s'.life == s.life
    ensures Orphaned(s') && s'.execs == s.execs
  {
    assert forall q: nat, l: nat :: MayExec(s', q, l) ==> MayExec(s, q, l);
    if r, ok :| Exec(s, s', r, ok) {
      assert MayExec(s, r, s.lives[r]);
    }
  }

  /** As long as an orphaned marker stays the database is not initialised by anybody. */
  lemma {:induction false} OrphanedMarkerBlocksInit(tr: seq<State>, i: nat, j: nat)
    requires Run(tr) && i <= j < |tr| && Orphaned(tr[i])
    requires forall k :: i <= k <= j ==> tr[k].life == tr[i].life
    ensures Orphaned(tr[j]) && tr[j].execs == tr[i].execs
    decreases j
  {
    hide Next, Inv, Orphaned;
    if i < j {
      OrphanedMarkerBlocksInit(tr, i, j - 1);
      RunInv(tr, j - 1);
      OrphanedStays(tr[j - 1], tr[j]);
    }
  }

  /** Conversely, while a creator is left an init is one step away: so with a marker in place the
      database can be initialised before the next deletion exactly when the marker is no orphan. */
  lemma CreatorCanInit(s: State) returns (s': State)
    requires Inv(s) && s.marker && !Orphaned(s)
    ensures Next(s, s') && |s'.execs| == |s.execs| + 1 && s'.execs[|s.execs|].ran == s.life
  {
    var r: nat, l: nat :| MayExec(s, r, l);
    s' := Executed(s, r);
    ExecStep(s, r, l);
  }
}
