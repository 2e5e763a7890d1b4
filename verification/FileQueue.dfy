/** The file queue of the extractsource service: any number of watchers that send, and one
    consumer that both receives and, when too many jobs run, sends the entry back. The channel
    has capacity `cap`; the service makes it with capacity 0. Too many jobs means: too many pods
    in phase Running. */
module FileQueue {
  /** An entry and the watcher that sent it. */
  datatype Item = Item(watcher: nat, file: string)

  datatype Consumer = Receiving | Holding(item: Item) | Requeueing(item: Item)

  /** offered[w] is every file watcher w matched so far, pending[w] the part not yet sent. Of the
      extract pods `running` are in phase Running and `starting` are created and not there yet;
      `misses` pod lists have failed. */
  datatype State = State(
    cap: nat, maxJobs: int, offered: map<nat, seq<string>>, pending: map<nat, seq<string>>,
    buffer: seq<Item>, consumer: Consumer, accepted: seq<Item>, attempted: seq<Item>,
    running: nat, starting: nat, misses: nat)

  ghost predicate Init(s: State) {
    && s.offered == map[] && s.pending == map[] && s.buffer == [] && s.consumer.Receiving?
    && s.accepted == [] && s.attempted == [] && s.misses == 0
  }

  /** Each setup round starts another watcher for every path, at any time. */
  ghost predicate StartWatcher(s: State, s': State, w: nat) {
    w !in s.offered && w !in s.pending
    && s' == s.(offered := s.offered[w := []], pending := s.pending[w := []])
  }

  ghost predicate Match(s: State, s': State, w: nat, file: string) {
    w in s.offered && w in s.pending
    && s' == s.(offered := s.offered[w := s.offered[w] + [file]], pending := s.pending[w := s.pending[w] + [file]])
  }

  ghost predicate CanSend(s: State, w: nat) {
    w in s.pending && s.pending[w] != []
  }

  /** Hand the entry to the waiting receiver: possible only when nothing is buffered. */
  ghost predicate Rendezvous(s: State, s': State, w: nat) {
    CanSend(s, w) && s.consumer.Receiving? && s.buffer == []
    && var item := Item(w, s.pending[w][0]);
       s' == s.(pending := s.pending[w := s.pending[w][1..]], consumer := Holding(item),
           accepted := s.accepted + [item])
  }

  ghost predicate Buffer(s: State, s': State, w: nat) {
    CanSend(s, w) && |s.buffer| < s.cap
    && var item := Item(w, s.pending[w][0]);
       s' == s.(pending := s.pending[w := s.pending[w][1..]], buffer := s.buffer + [item],
           accepted := s.accepted + [item])
  }

  ghost predicate Receive(s: State, s': State) {
    s.consumer.Receiving? && s.buffer != []
    && s' == s.(buffer := s.buffer[1..], consumer := Holding(s.buffer[0]))
  }

  /** The consumer lists the pods, compares the running ones with the limit and acts on it; what
      pods do in between they might as well do before or after. A failed list reads as 0, and an
      entry for which no pod is created is dropped just like any other. */
  ghost predicate Decide(s: State, s': State, listed: bool, created: bool) {
    s.consumer.Holding?
    && var podCount, after := if listed then s.running else 0, s.(misses := s.misses + if listed then 0 else 1);
    s' == if podCount >= s.maxJobs then after.(consumer := Requeueing(s.consumer.item))
          else after.(consumer := Receiving, attempted := s.attempted + [s.consumer.item],
                      starting := s.starting + if created then 1 else 0)
  }

  ghost predicate PodStarts(s: State, s': State) {
    s.starting > 0 && s' == s.(starting := s.starting - 1, running := s.running + 1)
  }

  ghost predicate PodEnds(s: State, s': State) {
    || (s.starting > 0 && s' == s.(starting := s.starting - 1))
    || (s.running > 0 && s' == s.(running := s.running - 1))
  }

  /** An API source is started by hand and gets its pod without a look at the limit. */
  ghost predicate StartApi(s: State, s': State) {
    s' == s.(starting := s.starting + 1)
  }

  /** The send of the consumer. The only receiver of the channel is the consumer itself, so it
      needs room in the buffer. */
  ghost predicate Requeue(s: State, s': State) {
    s.consumer.Requeueing? && |s.buffer| < s.cap
    && s' == s.(buffer := s.buffer + [s.consumer.item], consumer := Receiving)
  }

  ghost predicate Next(s: State, s': State) {
    || (exists w :: StartWatcher(s, s', w))
    || (exists w, file :: Match(s, s', w, file))
    || (exists w :: Rendezvous(s, s', w))
    || (exists w :: Buffer(s, s', w))
    || Receive(s, s')
    || (exists listed, created :: Decide(s, s', listed, created))
    || Requeue(s, s')
    || PodStarts(s, s')
    || PodEnds(s, s')
    || StartApi(s, s')
  }

  ghost predicate Steps(tr: seq<State>) {
    tr != [] && forall i :: 0 <= i < |tr| - 1 ==> Next(tr[i], tr[i + 1])
  }

  ghost predicate Run(tr: seq<State>) {
    Steps(tr) && Init(tr[0])
  }

  // ---- conservation, for any capacity ----

  function Held(c: Consumer): seq<Item> {
    if c.Receiving? then [] else [c.item]
  }

  /** The files of one watcher among some items, in order. */
  function Of(items: seq<Item>, w: nat): seq<string> {
    if items == [] then []
    else Of(items[..|items| - 1], w) + if items[|items| - 1].watcher == w then [items[|items| - 1].file] else []
  }

  lemma {:induction false} OfNobody(items: seq<Item>, w: nat)
    requires forall item <- items :: item.watcher != w
    ensures Of(items, w) == []
  {
    if items != [] {
      OfNobody(items[..|items| - 1], w);
    }
  }

  lemma {:induction false} OfAppend(a: seq<Item>, b: seq<Item>, w: nat)
    ensures Of(a + b, w) == Of(a, w) + Of(b, w)
  {
    if b == [] {
      assert a + b == a;
    } else {
      assert (a + b)[..|a + b| - 1] == a + b[..|b| - 1];
      OfAppend(a, b[..|b| - 1], w);
    }
  }

  ghost predicate Counts(s: State) {
    && |s.buffer| <= s.cap
    && multiset(s.accepted) == multiset(s.attempted) + multiset(s.buffer) + multiset(Held(s.consumer))
  }

  /** Per watcher: accepted, then pending, is what it matched. */
  ghost predicate Projects(s: State) {
    && s.offered.Keys == s.pending.Keys
    && (forall item <- s.accepted :: item.watcher in s.offered)
    && (forall w <- s.offered :: Of(s.accepted, w) + s.pending[w] == s.offered[w])
  }

  ghost predicate Conserved(s: State) {
    Counts(s) && Projects(s)
  }

  /** What an unbuffered channel adds: dispatch attempts follow the order of acceptance. */
  ghost predicate InOrder(s: State) {
    s.cap == 0 ==> s.accepted == s.attempted + Held(s.consumer)
  }

  lemma AcceptKeepsProjects(s: State, s': State, w: nat, item: Item)
    requires Projects(s) && CanSend(s, w) && item == Item(w, s.pending[w][0])
    requires s'.pending == s.pending[w := s.pending[w][1..]] && s'.accepted == s.accepted + [item]
    requires s'.offered == s.offered
    ensures Projects(s')
  {
    forall v <- s'.offered ensures Of(s'.accepted, v) + s'.pending[v] == s'.offered[v] {
      assert s'.accepted[..|s.accepted|] == s.accepted;
      if v == w {
        assert s.pending[w] == [s.pending[w][0]] + s.pending[w][1..];
        assert Of(s.accepted, w) + ([s.pending[w][0]] + s.pending[w][1..])
            == Of(s.accepted, w) + [s.pending[w][0]] + s.pending[w][1..];
      }
    }
  }

  lemma MatchKeepsProjects(s: State, s': State, w: nat, file: string)
    requires Projects(s) && Match(s, s', w, file)
    ensures Projects(s')
  {
    forall v <- s'.offered ensures Of(s'.accepted, v) + s'.pending[v] == s'.offered[v] {
      assert v == w ==> Of(s.accepted, v) + (s.pending[v] + [file]) == Of(s.accepted, v) + s.pending[v] + [file];
    }
  }

  lemma NextKeepsProjects(s: State, s': State)
    requires Projects(s) && Next(s, s')
    ensures Projects(s')
  {
    if w :| Rendezvous(s, s', w) {
      AcceptKeepsProjects(s, s', w, Item(w, s.pending[w][0]));
    } else if w :| Buffer(s, s', w) {
      AcceptKeepsProjects(s, s', w, Item(w, s.pending[w][0]));
    } else if w :| StartWatcher(s, s', w) {
      OfNobody(s.accepted, w);
    } else if w, file :| Match(s, s', w, file) {
      MatchKeepsProjects(s, s', w, file);
    }
  }

  lemma SendKeepsCounts(s: State, s': State, w: nat)
    requires Counts(s) && InOrder(s) && (Rendezvous(s, s', w) || Buffer(s, s', w))
    ensures Counts(s') && InOrder(s')
  {
    var item := Item(w, s.pending[w][0]);
    assert multiset(s.accepted + [item]) == multiset(s.accepted) + multiset{item};
    if Rendezvous(s, s', w) {
      assert s.attempted + [] == s.attempted;
      assert Held(s'.consumer) == [item] && Held(s.consumer) == [];
    } else {
      assert multiset(s.buffer + [item]) == multiset(s.buffer) + multiset{item};
    }
  }

  lemma ReceiveKeepsCounts(s: State, s': State)
    requires Counts(s) && InOrder(s) && Receive(s, s')
    ensures Counts(s') && InOrder(s')
  {
    assert s.buffer == [s.buffer[0]] + s.buffer[1..];
  }

  lemma RequeueKeepsCounts(s: State, s': State)
    requires Counts(s) && InOrder(s) && Requeue(s, s')
    ensures Counts(s') && InOrder(s')
  {
  }

  lemma DecideKeepsCounts(s: State, s': State, listed: bool, created: bool)
    requires Counts(s) && InOrder(s) && Decide(s, s', listed, created)
    ensures Counts(s') && InOrder(s')
  {
    assert s.attempted + [s.consumer.item] + [] == s.attempted + [s.consumer.item];
  }

  lemma NextKeepsCounts(s: State, s': State)
    requires Counts(s) && InOrder(s) && Next(s, s')
    ensures Counts(s') && InOrder(s') && s'.cap == s.cap && s'.maxJobs == s.maxJobs
  {
    hide Counts, InOrder;
    if w :| Rendezvous(s, s', w) {
      SendKeepsCounts(s, s', w);
    } else if w :| Buffer(s, s', w) {
      SendKeepsCounts(s, s', w);
    } else if Receive(s, s') {
      ReceiveKeepsCounts(s, s');
    } else if Requeue(s, s') {
      RequeueKeepsCounts(s, s');
    } else if listed, created :| Decide(s, s', listed, created) {
      DecideKeepsCounts(s, s', listed, created);
    } else {
      IdleKeepsCounts(s, s');
    }
  }

  lemma IdleKeepsCounts(s: State, s': State)
    requires Counts(s) && InOrder(s)
    requires s' == s.(offered := s'.offered, pending := s'.pending, running := s'.running, starting := s'.starting)
    ensures Counts(s') && InOrder(s')
  {
  }

  lemma {:induction false} RunIsConserved(tr: seq<State>, i: nat)
    requires Run(tr) && i < |tr|
    ensures Conserved(tr[i]) && InOrder(tr[i])
    ensures tr[i].cap == tr[0].cap && tr[i].maxJobs == tr[0].maxJobs
  {
    if i > 0 {
      RunIsConserved(tr, i - 1);
      NextKeepsProjects(tr[i - 1], tr[i]);
      NextKeepsCounts(tr[i - 1], tr[i]);
    }
  }

  lemma PrefixProjects(s: State, w: nat)
    requires Projects(s) && s.accepted == s.attempted + Held(s.consumer)
    ensures w in s.offered ==> Of(s.attempted, w) <= s.offered[w]
  {
    OfAppend(s.attempted, Held(s.consumer), w);
  }

  /** On the service's unbuffered channel: what was accepted is what was attempted plus at most
      one held entry, so nothing is attempted twice, and every watcher's files are attempted in
      the order of its events. */
  lemma AttemptsFollowEvents(tr: seq<State>, i: nat, w: nat)
    requires Run(tr) && tr[0].cap == 0 && i < |tr|
    ensures tr[i].accepted == tr[i].attempted + Held(tr[i].consumer)
    ensures w in tr[i].offered ==> Of(tr[i].attempted, w) <= tr[i].offered[w]
  {
    RunIsConserved(tr, i);
    PrefixProjects(tr[i], w);
  }

  /** With a buffer of any size the requeue loses and duplicates nothing: each accepted entry is
      attempted, buffered or held, counted with multiplicity. */
  lemma RequeueConserves(tr: seq<State>, i: nat)
    requires Run(tr) && i < |tr|
    ensures multiset(tr[i].accepted)
            == multiset(tr[i].attempted) + multiset(tr[i].buffer) + multiset(Held(tr[i].consumer))
  {
    RunIsConserved(tr, i);
  }

  // ---- the stuck state ----

  ghost predicate Stuck(s: State) {
    s.consumer.Requeueing? && |s.buffer| >= s.cap
  }

  lemma StuckStays(s: State, s': State)
    requires Stuck(s) && Next(s, s')
    ensures Stuck(s') && s'.attempted == s.attempted && s'.accepted == s.accepted && s'.consumer == s.consumer
  {
  }

  /** The consumer that sends into a full channel waits for itself: whatever happens later,
      nothing more is accepted or attempted. With capacity 0 every throttled entry does this. */
  lemma {:induction false} StuckForever(tr: seq<State>, i: nat, j: nat)
    requires Steps(tr) && i <= j < |tr| && Stuck(tr[i])
    ensures Stuck(tr[j]) && tr[j].attempted == tr[i].attempted && tr[j].accepted == tr[i].accepted
    ensures tr[j].consumer == tr[i].consumer
    decreases j
  {
    hide Next, Stuck;
    if i < j {
      StuckForever(tr, i, j - 1);
      StuckStays(tr[j - 1], tr[j]);
    }
  }

  ghost predicate HasWork(s: State) {
    !s.consumer.Receiving? || s.buffer != [] || exists w :: CanSend(s, w)
  }

  /** From every other state with work in it a further attempt is at most three steps away, as
      long as fewer jobs run than allowed. */
  lemma UnstuckCanAttempt(s: State) returns (tr: seq<State>)
    requires HasWork(s) && !Stuck(s) && s.running < s.maxJobs
    ensures Steps(tr) && tr[0] == s && |tr| <= 4
    ensures |tr[|tr| - 1].attempted| == |s.attempted| + 1 && tr[|tr| - 1].misses == s.misses
  {
    if s.consumer.Holding? {
      tr := [s, Attempted(s)];
    } else if s.consumer.Requeueing? {
      var s1 := s.(buffer := s.buffer + [s.consumer.item], consumer := Receiving);
      var s2 := s1.(buffer := s1.buffer[1..], consumer := Holding(s1.buffer[0]));
      assert Requeue(s, s1) && Receive(s1, s2);
      tr := [s, s1, s2, Attempted(s2)];
    } else if s.buffer != [] {
      var s1 := s.(buffer := s.buffer[1..], consumer := Holding(s.buffer[0]));
      assert Receive(s, s1);
      tr := [s, s1, Attempted(s1)];
    } else {
      var w :| CanSend(s, w);
      var item := Item(w, s.pending[w][0]);
      var s1 := s.(pending := s.pending[w := s.pending[w][1..]], consumer := Holding(item),
          accepted := s.accepted + [item]);
      assert Rendezvous(s, s1, w);
      tr := [s, s1, Attempted(s1)];
    }
  }

  /** The held entry gets its pod. */
  ghost function Attempted(s: State): (s': State)
    requires s.consumer.Holding? && s.running < s.maxJobs
    ensures Next(s, s') && |s'.attempted| == |s.attempted| + 1
    ensures s' == s.(consumer := s'.consumer, attempted := s'.attempted, starting := s.starting + 1)
    ensures s'.consumer.Receiving?
  {
    var s' := s.(consumer := Receiving, attempted := s.attempted + [s.consumer.item], starting := s.starting + 1);
    assert Decide(s, s', true, true);
    s'
  }

  // ---- the job limit ----

  /** What becomes of a held entry. A list that succeeds decides by the pods that run, a list that
      fails by the limit alone; nothing else lets the consumer go on. */
  lemma HeldEntryIsDecided(s: State, s': State)
    requires Next(s, s') && s.consumer.Holding? && s'.consumer != s.consumer
    ensures var attempt := if s'.misses == s.misses then s.running < s.maxJobs else 0 < s.maxJobs;
            if attempt then s'.attempted == s.attempted + [s.consumer.item] && s'.consumer.Receiving?
            else s'.attempted == s.attempted && s'.consumer == Requeueing(s.consumer.item)
                 && s'.running == s.running && s'.starting == s.starting
    ensures s.misses <= s'.misses <= s.misses + 1
  {
    var listed, created :| Decide(s, s', listed, created);
  }

  /** In every run, an entry is attempted only while fewer pods run than allowed, or behind a list
      that failed. */
  lemma AttemptsAreThrottled(tr: seq<State>, i: nat)
    requires Steps(tr) && i + 1 < |tr| && tr[i + 1].attempted != tr[i].attempted
    ensures tr[i].consumer.Holding? && tr[i + 1].attempted == tr[i].attempted + [tr[i].consumer.item]
    ensures tr[i + 1].misses == tr[i].misses ==> tr[i].running < tr[i].maxJobs
    ensures 0 < tr[i].maxJobs
  {
    assert Next(tr[i], tr[i + 1]);
  }

  /** On the service's unbuffered channel the first entry met by a full house is the last one: once
      the consumer gave it back nothing is attempted any more, however many jobs end. */
  lemma FullHouseEndsTheQueue(tr: seq<State>, i: nat, j: nat)
    requires Steps(tr) && i < j < |tr| && tr[i].cap == 0
    requires tr[i].consumer.Holding? && tr[i].running >= tr[i].maxJobs
    requires tr[i + 1].consumer != tr[i].consumer && tr[i + 1].misses == tr[i].misses
    ensures tr[j].attempted == tr[i].attempted && tr[j].accepted == tr[i].accepted
    ensures tr[j].consumer == Requeueing(tr[i].consumer.item)
  {
    assert Next(tr[i], tr[i + 1]);
    var listed, created :| Decide(tr[i], tr[i + 1], listed, created);
    hide Next;
    StuckForever(tr, i + 1, j);
  }

  /** The jobs there are, running or not yet. */
  function Live(s: State): nat {
    s.running + s.starting
  }

  /** The step adds a job while there already are as many as allowed. */
  ghost predicate Overfills(s: State, s': State) {
    Live(s') > Live(s) && Live(s) >= s.maxJobs
  }

  /** The count an attempt goes by is that of all jobs: the list succeeded, and no pod was starting. */
  ghost predicate CountIsComplete(s: State, s': State) {
    s'.attempted != s.attempted ==> s'.misses == s.misses && s.starting == 0
  }

  lemma OneJobAtATime(s: State, s': State)
    requires Next(s, s')
    ensures Live(s') <= Live(s) + 1 && s'.maxJobs == s.maxJobs
    ensures CountIsComplete(s, s') && s'.attempted != s.attempted ==> !Overfills(s, s')
  {
  }

  /** The limit is kept exactly as long as nobody adds a job while there are as many as allowed. Of
      the queue that can be said when its counts are complete; API sources do not count at all. */
  lemma {:induction false} LimitIsKeptExactly(tr: seq<State>)
    requires Steps(tr) && Live(tr[0]) <= tr[0].maxJobs
    ensures (forall i :: 0 <= i < |tr| ==> Live(tr[i]) <= tr[0].maxJobs)
            <==> forall i :: 0 <= i < |tr| - 1 ==> !Overfills(tr[i], tr[i + 1])
    ensures (forall i :: 0 <= i < |tr| - 1 ==>
               CountIsComplete(tr[i], tr[i + 1])
               && (Live(tr[i + 1]) > Live(tr[i]) ==> tr[i + 1].attempted != tr[i].attempted))
            ==> forall i :: 0 <= i < |tr| ==> Live(tr[i]) <= tr[0].maxJobs
  {
    forall i | 0 <= i < |tr| - 1
      ensures Live(tr[i + 1]) <= Live(tr[i]) + 1
      ensures CountIsComplete(tr[i], tr[i + 1]) && tr[i + 1].attempted != tr[i].attempted ==>
                !Overfills(tr[i], tr[i + 1])
    {
      OneJobAtATime(tr[i], tr[i + 1]);
    }
    hide Next;
    forall i: nat | i < |tr| ensures tr[i].maxJobs == tr[0].maxJobs {
      LimitIsFixed(tr, i);
    }
    if forall i :: 0 <= i < |tr| - 1 ==> !Overfills(tr[i], tr[i + 1]) {
      forall i: nat | i < |tr| ensures Live(tr[i]) <= tr[0].maxJobs {
        NeverOverfilled(tr, i);
      }
    }
  }

  lemma {:induction false} LimitIsFixed(tr: seq<State>, i: nat)
    requires Steps(tr) && i < |tr|
    ensures tr[i].maxJobs == tr[0].maxJobs
  {
    hide Next;
    if i > 0 {
      LimitIsFixed(tr, i - 1);
      OneJobAtATime(tr[i - 1], tr[i]);
    }
  }

  lemma {:induction false} NeverOverfilled(tr: seq<State>, i: nat)
    requires Steps(tr) && Live(tr[0]) <= tr[0].maxJobs && i < |tr|
    requires forall k :: 0 <= k < |tr| - 1 ==> !Overfills(tr[k], tr[k + 1])
    ensures Live(tr[i]) <= tr[0].maxJobs
  {
    hide Next;
    if i > 0 {
      NeverOverfilled(tr, i - 1);
      LimitIsFixed(tr, i - 1);
      OneJobAtATime(tr[i - 1], tr[i]);
      assert !Overfills(tr[i - 1], tr[i - 1 + 1]);
    }
  }

  lemma Extend(tr: seq<State>, next: State)
    requires Run(tr) && Next(tr[|tr| - 1], next)
    ensures Run(tr + [next])
  {
    hide Next;
    var all := tr + [next];
    forall i | 0 <= i < |all| - 1 ensures Next(all[i], all[i + 1]) {
      assert i < |tr| - 1 ==> all[i] == tr[i] && all[i + 1] == tr[i + 1];
    }
  }

  /** The consumer waits, nothing runs, and n pods are starting. */
  ghost predicate AllStarting(s: State, maxJobs: int, n: nat) {
    && s.cap == 0 && s.maxJobs == maxJobs && s.misses == 0 && s.running == 0 && s.starting == n
    && s.consumer.Receiving? && s.buffer == [] && 0 in s.offered && 0 in s.pending && s.pending[0] == []
  }

  lemma {:induction false} StartMany(maxJobs: int, n: nat) returns (tr: seq<State>)
    requires maxJobs >= 1
    ensures Run(tr) && AllStarting(tr[|tr| - 1], maxJobs, n)
  {
    if n == 0 {
      var s := State(0, maxJobs, map[], map[], [], Receiving, [], [], 0, 0, 0);
      var s' := s.(offered := map[0 := []], pending := map[0 := []]);
      assert StartWatcher(s, s', 0);
      tr := [s, s'];
    } else {
      tr := StartMany(maxJobs, n - 1);
      var s0 := tr[|tr| - 1];
      var s1 := s0.(offered := s0.offered[0 := s0.offered[0] + ["f"]],
          pending := s0.pending[0 := s0.pending[0] + ["f"]]);
      var s2 := s1.(pending := s1.pending[0 := s1.pending[0][1..]], consumer := Holding(Item(0, "f")),
          accepted := s1.accepted + [Item(0, "f")]);
      assert Match(s0, s1, 0, "f") && Rendezvous(s1, s2, 0);
      var s3 := Attempted(s2);
      Extend(tr, s1);
      Extend(tr + [s1], s2);
      Extend(tr + [s1] + [s2], s3);
      tr := tr + [s1] + [s2] + [s3];
    }
  }

  /** Pods that have not started are not counted, so the limit bounds nothing: for every limit that
      allows a job at all and for every n there is a run without any failure in which n jobs run. */
  lemma StartingPodsAreNotCounted(maxJobs: int, n: nat) returns (tr: seq<State>)
    requires maxJobs >= 1
    ensures Run(tr) && tr[|tr| - 1].maxJobs == maxJobs && tr[|tr| - 1].misses == 0
    ensures tr[|tr| - 1].running == n && tr[|tr| - 1].cap == 0
  {
    tr := StartMany(maxJobs, n);
    var k := 0;
    while k < n
      invariant 0 <= k <= n && Run(tr)
      invariant tr[|tr| - 1].maxJobs == maxJobs && tr[|tr| - 1].misses == 0 && tr[|tr| - 1].cap == 0
      invariant tr[|tr| - 1].running == k && tr[|tr| - 1].starting == n - k
    {
      var s := tr[|tr| - 1];
      var s' := s.(starting := s.starting - 1, running := s.running + 1);
      assert PodStarts(s, s');
      Extend(tr, s');
      tr := tr + [s'];
      k := k + 1;
    }
  }

  /** A limit of 0 or less throttles the very first entry, and the service never attempts any. */
  lemma {:induction false} NoJobsAllowedNothingAttempted(tr: seq<State>, i: nat)
    requires Run(tr) && i < |tr| && tr[0].maxJobs <= 0
    ensures tr[i].attempted == []
  {
    if i > 0 {
      NoJobsAllowedNothingAttempted(tr, i - 1);
      RunIsConserved(tr, i - 1);
      NoAttemptWithoutRoom(tr[i - 1], tr[i]);
    }
  }

  lemma NoAttemptWithoutRoom(s: State, s': State)
    requires Next(s, s') && s.maxJobs <= 0
    ensures s'.attempted == s.attempted
  {
  }
}
