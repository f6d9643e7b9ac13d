/** Safety over every run of the shutdown protocol, and termination of the drain once the deadline has passed. */
module LifecycleProofs {
  import opened Wrappers
  import opened Lifecycle

  // ---- The invariant ----

  lemma {:induction false} InitialSum(ts: seq<Task>)
    requires forall k :: 0 <= k < |ts| ==> ts[k] == Task(Accept, Running, 0)
    ensures Sum(Held, ts) == |ts|
    decreases |ts|
  {
    if ts != [] {
      InitialSum(ts[1..]);
    }
  }

  lemma InitInv(s: State)
    requires Init(s)
    ensures Inv(s)
  {
    InitialSum(s.tasks);
  }

  lemma {:induction false} BirthsShape(cs: seq<Child>)
    ensures |Births(cs)| == |cs| && forall k :: 0 <= k < |cs| ==> Births(cs)[k] == Born(cs[k])
    decreases |cs|
  {
    if cs != [] {
      BirthsShape(cs[1..]);
    }
  }

  lemma StepInv(s: State, e: Event)
    requires Inv(s) && Enabled(s, e)
    ensures Inv(Apply(s, e))
  {
    if e.Poll? {
      PollInv(s, e);
    } else if e.BackOff? || e.Release? {
      MoveInv(s, e);
    } else {
      MainInv(s, e);
    }
  }

  lemma MoveInv(s: State, e: Event)
    requires Inv(s) && (e.BackOff? || e.Release?) && Enabled(s, e)
    ensures Inv(Apply(s, e))
  {
    SumUpdate(Held, s.tasks, e.i, Apply(s, e).tasks[e.i]);
  }

  /** The clock, `run_inner` and the poller leave the tasks alone. */
  lemma MainInv(s: State, e: Event)
    requires Inv(s) && !e.Poll? && !e.BackOff? && !e.Release? && Enabled(s, e)
    ensures Inv(Apply(s, e))
  {
    hide Sum, Held;
    assert Apply(s, e).tasks == s.tasks;
  }

  lemma PollInv(s: State, e: Event)
    requires Inv(s) && e.Poll? && PollAllowed(s, e)
    ensures Inv(Apply(s, e))
  {
    var s' := Apply(s, e);
    TurnSenders(s, e);
    BirthsShape(e.spawned);
    assert TaskOk(s, s.tasks[e.i]);
    forall k | 0 <= k < |s'.tasks|
      ensures TaskOk(s', s'.tasks[k])
    {
      if k < |s.tasks| && k != e.i {
        assert TaskOk(s, s.tasks[k]);
      }
    }
  }

  // ---- Runs ----

  /** The events of `es`, in order, are all possible from `s`. */
  predicate Legal(s: State, es: seq<Event>)
    decreases |es|
  {
    es == [] || (Enabled(s, es[0]) && Legal(Apply(s, es[0]), es[1..]))
  }

  function Run(s: State, es: seq<Event>): State
    requires Legal(s, es)
    decreases |es|
  {
    if es == [] then s else Run(Apply(s, es[0]), es[1..])
  }

  lemma {:induction false} RunInv(s: State, es: seq<Event>)
    requires Inv(s) && Legal(s, es)
    ensures Inv(Run(s, es))
    decreases |es|
  {
    if es != [] {
      StepInv(s, es[0]);
      RunInv(Apply(s, es[0]), es[1..]);
    }
  }

  /** The count the barrier reads is the number of senders alive, in every reachable state. */
  lemma SendersAreHolders(s: State, es: seq<Event>)
    requires Init(s) && Legal(s, es)
    ensures var r := Run(s, es); r.senders == (if RootHeld(r.main) then 1 else 0) + Sum(Held, r.tasks)
  {
    InitInv(s);
    RunInv(s, es);
  }

  lemma ReturnedIsQuiet(s: State)
    requires Inv(s) && s.senders == 0 && (s.main == AwaitBarrier || s.main == Returned)
    ensures forall k :: 0 <= k < |s.tasks| ==> s.tasks[k].phase.Gone?
  {
    forall k | 0 <= k < |s.tasks|
      ensures s.tasks[k].phase.Gone?
    {
      SumZero(Held, s.tasks, k);
      assert TaskOk(s, s.tasks[k]);
    }
  }

  /** Once `run_inner` has passed the barrier nothing but the clock ever moves again. */
  lemma QuietForever(s: State, e: Event)
    requires Inv(s) && s.main == Returned && s.senders == 0 && Enabled(s, e)
    ensures e == Tick
    ensures Apply(s, e).tasks == s.tasks && Apply(s, e).poller == s.poller
    ensures Apply(s, e).senders == 0 && Apply(s, e).main == Returned
  {
    ReturnedIsQuiet(s);
  }

  lemma {:induction false} RunStaysQuiet(s: State, es: seq<Event>)
    requires Inv(s) && Legal(s, es) && (s.main == Returned ==> s.senders == 0)
    ensures var r := Run(s, es); r.main == Returned ==> r.senders == 0
    ensures s.main == Returned ==>
              Run(s, es).main == Returned && Run(s, es).tasks == s.tasks && Run(s, es).poller == s.poller
    decreases |es|
  {
    if es != [] {
      StepInv(s, es[0]);
      if s.main == Returned {
        QuietForever(s, es[0]);
      }
      RunStaysQuiet(Apply(s, es[0]), es[1..]);
    }
  }

  /**
   Barrier safety, over every run: when `run_inner` has returned, no accept loop, connection, HTTP/2 request or
   relay owns its future, a socket or a sender, the poller is over, and this stays so in every continuation.
   */
  lemma BarrierSafety(s: State, es: seq<Event>, more: seq<Event>)
    requires Init(s) && Legal(s, es) && Run(s, es).main == Returned && Legal(Run(s, es), more)
    ensures forall t :: t in Run(s, es).tasks ==> t.phase.Gone? && !OwnsSockets(t) && Held(t) == 0
    ensures !Run(s, es).poller
    ensures var later := Run(Run(s, es), more);
            later.main == Returned && later.tasks == Run(s, es).tasks && !later.poller
  {
    InitInv(s);
    RunInv(s, es);
    RunStaysQuiet(s, es);
    ReturnedIsQuiet(Run(s, es));
    RunStaysQuiet(Run(s, es), more);
  }

  // ---- One deadline ----

  lemma {:induction false} DeadlineOnce(s: State, es: seq<Event>)
    requires Inv(s) && Legal(s, es) && s.deadline.Some?
    ensures Run(s, es).deadline == s.deadline
    decreases |es|
  {
    if es != [] {
      StepInv(s, es[0]);
      DeadlineOnce(Apply(s, es[0]), es[1..]);
    }
  }

  /**
   One deadline, over every run: it is written at most once, and any task found under a timeout, including one
   spawned after shutdown began, is under that instant. A task polled at or after it never keeps its future.
   */
  lemma OneDeadline(s: State, es: seq<Event>, more: seq<Event>)
    requires Init(s) && Legal(s, es) && Run(s, es).deadline.Some? && Legal(Run(s, es), more)
    ensures var d := Run(s, es).deadline.value;
            var r := Run(Run(s, es), more);
            && r.deadline == Some(d)
            && (forall t :: t in r.tasks && t.phase.Bounded? ==> t.phase.deadline == d)
            && (forall e: Event :: e.Poll? && Enabled(r, e) && d <= r.now ==> !OwnsFuture(Apply(r, e).tasks[e.i]))
  {
    InitInv(s);
    RunInv(s, es);
    var m := Run(s, es);
    DeadlineOnce(m, more);
    RunInv(m, more);
    var r := Run(m, more);
    var d := m.deadline.value;
    forall t | t in r.tasks && t.phase.Bounded?
      ensures t.phase.deadline == d
    {
      var k :| 0 <= k < |r.tasks| && r.tasks[k] == t;
      assert TaskOk(r, r.tasks[k]);
    }
    forall e: Event | e.Poll? && Enabled(r, e) && d <= r.now
      ensures !OwnsFuture(Apply(r, e).tasks[e.i])
    {
      assert TaskOk(r, r.tasks[e.i]);
    }
  }

  // ---- The drain terminates ----

  /** Shutdown is visible to every task and its instant is not in the future. */
  predicate Due(s: State) {
    Seen(s).Some? && Seen(s).value <= s.now
  }

  function Weight(p: Phase): nat {
    match p
    case Running => 2
    case Waiting(_) => 2
    case Bounded(_) => 2
    case Cleaned => 1
    case Unguarded => 1
    case Gone => 0
  }

  function WeightOf(kind: Kind): Task -> nat {
    (t: Task) => if t.kind == kind then Weight(t.phase) else 0
  }

  function Work(s: State, kind: Kind): nat {
    Sum(WeightOf(kind), s.tasks)
  }

  function MainWork(s: State): nat {
    (if s.poller then 1 else 0) +
    match s.main
    case Serving => 5
    case JoinAccepts => 4
    case JoinPoller => 3
    case DropRoot => 2
    case AwaitBarrier => 1
    case Returned => 0
    case Abandoned => 0
  }

  /** The measure of the drain: work left per class, the spawning classes first. */
  predicate Smaller(s': State, s: State) {
    || Work(s', Accept) < Work(s, Accept)
    || (&& Work(s', Accept) == Work(s, Accept)
        && (|| Work(s', Connection) < Work(s, Connection)
            || (&& Work(s', Connection) == Work(s, Connection)
                && (|| Work(s', Request) < Work(s, Request)
                    || (&& Work(s', Request) == Work(s, Request)
                        && (|| Work(s', Relay) < Work(s, Relay)
                            || (Work(s', Relay) == Work(s, Relay) && MainWork(s') < MainWork(s))))))))
  }

  lemma {:induction false} BirthsWeigh(kind: Kind, parent: Kind, cs: seq<Child>)
    requires forall k :: 0 <= k < |cs| ==> CanSpawn(parent, cs[k].kind)
    requires !CanSpawn(parent, kind)
    ensures Sum(WeightOf(kind), Births(cs)) == 0
    decreases |cs|
  {
    if cs != [] {
      assert CanSpawn(parent, cs[0].kind);
      BirthsWeigh(kind, parent, cs[1..]);
    }
  }

  /** A turn changes the work of a class by what its own task loses and its children bring. */
  lemma PollWork(s: State, e: Event, kind: Kind)
    requires Inv(s) && Due(s) && e.Poll? && PollAllowed(s, e)
    ensures Work(Apply(s, e), kind) ==
            Work(s, kind) - (if kind == s.tasks[e.i].kind then 1 else 0) + Sum(WeightOf(kind), Births(e.spawned))
  {
    var t := s.tasks[e.i];
    assert TaskOk(s, t);
    SumUpdate(WeightOf(kind), s.tasks, e.i, Turned(s, e));
    SumAppend(WeightOf(kind), s.tasks[e.i := Turned(s, e)], Births(e.spawned));
  }

  lemma PollShrinks(s: State, e: Event)
    requires Inv(s) && Due(s) && e.Poll? && PollAllowed(s, e)
    ensures Smaller(Apply(s, e), s)
  {
    hide Inv, Due, Apply, Sum, Born, Births, WeightOf, Work;
    var parent := s.tasks[e.i].kind;
    PollWork(s, e, Accept);
    PollWork(s, e, Connection);
    PollWork(s, e, Request);
    PollWork(s, e, Relay);
    BirthsWeigh(Accept, parent, e.spawned);
    if parent != Accept {
      BirthsWeigh(Connection, parent, e.spawned);
    }
    if parent == Request || parent == Relay {
      BirthsWeigh(Request, parent, e.spawned);
    }
    if parent == Relay {
      BirthsWeigh(Relay, parent, e.spawned);
    }
  }

  lemma ReleaseShrinks(s: State, e: Event)
    requires Enabled(s, e) && e.Release?
    ensures Smaller(Apply(s, e), s)
  {
    var gone := s.tasks[e.i].(phase := Gone);
    SumUpdate(WeightOf(Accept), s.tasks, e.i, gone);
    SumUpdate(WeightOf(Connection), s.tasks, e.i, gone);
    SumUpdate(WeightOf(Request), s.tasks, e.i, gone);
    SumUpdate(WeightOf(Relay), s.tasks, e.i, gone);
  }

  /** After the deadline every event but the clock shrinks the measure: children only join lower classes. */
  lemma DrainShrinks(s: State, e: Event)
    requires Inv(s) && Due(s) && Enabled(s, e) && e != Tick
    ensures Smaller(Apply(s, e), s) && Due(Apply(s, e))
  {
    hide Inv, PollAllowed, Sum, Born, Births, WeightOf, Turned;
    if e.Poll? {
      PollShrinks(s, e);
    } else if e.Release? {
      hide Smaller;
      ReleaseShrinks(s, e);
    } else if e.Publish? {
      NotServing(s);
    }
    // A back-off is not possible any more: every accept loop sees the deadline first.
  }

  /** The clock changes no work, so ticks in between turns do not delay the end. */
  lemma TickKeepsWork(s: State, kind: Kind)
    ensures Work(Apply(s, Tick), kind) == Work(s, kind) && MainWork(Apply(s, Tick)) == MainWork(s)
    ensures Due(s) ==> Due(Apply(s, Tick))
  {
  }

  lemma NotServing(s: State)
    requires Inv(s) && Due(s)
    ensures s.main != Serving
  {
  }

  /** `run` is over one way or the other and nothing is left of what it started. */
  predicate Finished(s: State) {
    && (s.main == Returned || s.main == Abandoned)
    && !s.poller
    && forall k :: 0 <= k < |s.tasks| ==> s.tasks[k].phase.Gone?
  }

  /** How long the accept loops in back-off still sleep, all together. */
  function WaitLeft(ts: seq<Task>, now: nat): nat {
    if ts == [] then 0
    else (if ts[0].phase.Waiting? && ts[0].phase.wake > now then ts[0].phase.wake - now else 0) + WaitLeft(ts[1..], now)
  }

  predicate Asleep(t: Task, now: nat) {
    t.phase.Waiting? && t.phase.wake > now
  }

  lemma {:induction false} WaitFalls(ts: seq<Task>, now: nat)
    ensures WaitLeft(ts, now + 1) <= WaitLeft(ts, now)
    ensures (exists k :: 0 <= k < |ts| && Asleep(ts[k], now)) ==> WaitLeft(ts, now + 1) < WaitLeft(ts, now)
    decreases |ts|
  {
    if ts != [] {
      WaitFalls(ts[1..], now);
      if k :| 0 < k < |ts| && Asleep(ts[k], now) {
        assert Asleep(ts[1..][k - 1], now);
      }
    }
  }

  /** A task that is not gone and not asleep can always be polled to its end, or let go. */
  lemma TaskProgress(s: State, k: nat) returns (e: Event)
    requires Inv(s) && Due(s) && k < |s.tasks| && !s.tasks[k].phase.Gone? && !Asleep(s.tasks[k], s.now)
    ensures Enabled(s, e) && (e.Poll? || e.Release?)
  {
    var t := s.tasks[k];
    assert TaskOk(s, t);
    e := if OwnsFuture(t) then Poll(k, 0, 0, [], true) else Release(k);
  }

  /** With every task gone, what is left of `run` can always take its next step. */
  lemma MainProgress(s: State) returns (e: Event)
    requires Inv(s) && Due(s) && !Finished(s) && forall k :: 0 <= k < |s.tasks| ==> s.tasks[k].phase.Gone?
    ensures Enabled(s, e) && e != Abandon && e != Tick
  {
    AllGoneHoldNothing(s.tasks);
    e := if s.poller then PollerExit
         else if s.main == JoinAccepts then AcceptsJoined
         else if s.main == JoinPoller then PollerJoined
         else if s.main == DropRoot then RootDropped
         else BarrierPassed;
  }

  /**
   The drain never gets stuck: until everything is gone some event is possible other than the clock and the loss of
   `run_inner` itself, unless an accept loop is asleep, and then the clock brings its end closer.
   */
  lemma DrainProgress(s: State) returns (e: Event)
    requires Inv(s) && Due(s) && !Finished(s)
    ensures Enabled(s, e) && e != Abandon
    ensures e == Tick ==>
              && (exists k :: 0 <= k < |s.tasks| && Asleep(s.tasks[k], s.now))
              && WaitLeft(s.tasks, s.now + 1) < WaitLeft(s.tasks, s.now)
  {
    hide Inv, Due, Finished, Asleep, WaitLeft, PollAllowed;
    if k: nat :| k < |s.tasks| && Asleep(s.tasks[k], s.now) {
      WaitFalls(s.tasks, s.now);
      e := Tick;
    } else if k: nat :| k < |s.tasks| && !s.tasks[k].phase.Gone? {
      e := TaskProgress(s, k);
    } else {
      e := MainProgress(s);
    }
  }

  lemma {:induction false} AllGoneHoldNothing(ts: seq<Task>)
    requires forall k :: 0 <= k < |ts| ==> ts[k].phase.Gone?
    ensures Sum(Held, ts) == 0
    decreases |ts|
  {
    if ts != [] {
      AllGoneHoldNothing(ts[1..]);
    }
  }

  /**
   A way to pick the next event from the past and the present. It need only pick possible ones, and it may let time
   pass whenever it likes, as long as its patience, any number that falls with each tick, bounds how long at a stretch.
   */
  ghost predicate Scheduler(pick: (seq<Event>, State) -> Event, patience: (seq<Event>, State) -> nat) {
    forall past: seq<Event>, s: State :: Inv(s) && Due(s) && !Finished(s) ==>
      && Enabled(s, pick(past, s))
      && (pick(past, s) == Tick ==> patience(past + [Tick], Apply(s, Tick)) < patience(past, s))
  }

  /** `es` is what the scheduler does from `s` after `past`. */
  ghost predicate Follows(s: State, past: seq<Event>, es: seq<Event>, pick: (seq<Event>, State) -> Event)
    decreases |es|
  {
    es == [] ||
    (es[0] == pick(past, s) && Enabled(s, es[0]) && Follows(Apply(s, es[0]), past + [es[0]], es[1..], pick))
  }

  /**
   Drain termination: from any reachable state past the deadline, whatever the order of turns, whatever they spawn and
   however the clock moves in between, finitely many events end `run` with every task gone.
   */
  lemma DrainEnds(s: State, past: seq<Event>, pick: (seq<Event>, State) -> Event, patience: (seq<Event>, State) -> nat)
    returns (es: seq<Event>)
    requires Inv(s) && Due(s) && Scheduler(pick, patience)
    ensures Legal(s, es) && Follows(s, past, es, pick) && Finished(Run(s, es))
    decreases Work(s, Accept), Work(s, Connection), Work(s, Request), Work(s, Relay), MainWork(s), patience(past, s)
  {
    hide Inv, Due, Enabled, Apply, Work, MainWork, Finished;
    if Finished(s) {
      es := [];
    } else {
      var e := pick(past, s);
      StepInv(s, e);
      if e == Tick {
        TickKeepsWork(s, Accept);
        TickKeepsWork(s, Connection);
        TickKeepsWork(s, Request);
        TickKeepsWork(s, Relay);
      } else {
        DrainShrinks(s, e);
      }
      var rest := DrainEnds(Apply(s, e), past + [e], pick, patience);
      es := [e] + rest;
      assert es[1..] == rest;
    }
  }

  /** Only the loss of `run_inner` keeps it from returning. */
  lemma {:induction false} StaysAttended(s: State, es: seq<Event>)
    requires Legal(s, es) && s.main != Abandoned && Abandon !in es
    ensures Run(s, es).main != Abandoned
    decreases |es|
  {
    if es != [] {
      assert Apply(s, es[0]).main != Abandoned;
      StaysAttended(Apply(s, es[0]), es[1..]);
    }
  }

  /**
   Every drain ends, and unless `run_inner` is dropped it ends because the barrier was passed: `run_inner` returns with
   the poller over, every task gone and no sender left.
   */
  lemma DrainTerminates(s: State, past: seq<Event>, pick: (seq<Event>, State) -> Event,
                        patience: (seq<Event>, State) -> nat)
    returns (es: seq<Event>)
    requires Inv(s) && Due(s) && Scheduler(pick, patience)
    ensures Legal(s, es) && Follows(s, past, es, pick) && Finished(Run(s, es))
    ensures s.main != Abandoned && Abandon !in es ==> Run(s, es).main == Returned
    ensures Run(s, es).senders == 0 && !Run(s, es).poller
    ensures forall k :: 0 <= k < |Run(s, es).tasks| ==> Run(s, es).tasks[k].phase.Gone?
  {
    hide Due, Scheduler, Follows, Enabled, Apply, Legal, Run;
    es := DrainEnds(s, past, pick, patience);
    if s.main != Abandoned && Abandon !in es {
      StaysAttended(s, es);
    }
    RunInv(s, es);
    AllGoneHoldNothing(Run(s, es).tasks);
  }

  // ---- There is a scheduler, and it lets `run_inner` return ----

  /** Does whatever can be done, and lets time pass only when nothing else is possible. */
  ghost function Eager(past: seq<Event>, s: State): Event {
    if exists e :: Enabled(s, e) && e != Tick && e != Abandon then
      var e :| Enabled(s, e) && e != Tick && e != Abandon; e
    else Tick
  }

  ghost function EagerPatience(past: seq<Event>, s: State): nat {
    WaitLeft(s.tasks, s.now)
  }

  lemma EagerIsScheduler()
    ensures Scheduler(Eager, EagerPatience)
  {
    hide Inv, Due, Finished, Enabled, WaitLeft, Asleep;
    forall past: seq<Event>, s: State | Inv(s) && Due(s) && !Finished(s)
      ensures Enabled(s, Eager(past, s))
      ensures Eager(past, s) == Tick ==> EagerPatience(past + [Tick], Apply(s, Tick)) < EagerPatience(past, s)
    {
      TickPossible(s);
      var e := DrainProgress(s);
    }
  }

  lemma TickPossible(s: State)
    ensures Enabled(s, Tick) && Apply(s, Tick) == s.(now := s.now + 1)
  {
  }

  lemma {:induction false} EagerAttends(s: State, past: seq<Event>, es: seq<Event>)
    requires Follows(s, past, es, Eager)
    ensures Abandon !in es
    decreases |es|
  {
    hide Enabled, Apply;
    if es != [] {
      EagerAttends(Apply(s, es[0]), past + [es[0]], es[1..]);
      assert es == [es[0]] + es[1..];
    }
  }

  /** From every reachable state past the deadline in which `run_inner` is still there, it can return. */
  lemma DrainCanReturn(s: State) returns (es: seq<Event>)
    requires Inv(s) && Due(s) && s.main != Abandoned
    ensures Legal(s, es) && Run(s, es).main == Returned
  {
    hide Inv, Due, Finished, Follows, Legal, Run, Scheduler;
    EagerIsScheduler();
    es := DrainTerminates(s, [], Eager, EagerPatience);
    EagerAttends(s, [], es);
  }
}
