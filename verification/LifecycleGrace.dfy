/** The other half of the shutdown protocol: which instant is published, and what may go on until then. */
module LifecycleGrace {
  import opened Wrappers
  import opened Lifecycle
  import opened LifecycleProofs

  // ---- The published instant ----

  function Ticks(es: seq<Event>): nat {
    if es == [] then 0 else (if es[0] == Tick then 1 else 0) + Ticks(es[1..])
  }

  lemma {:induction false} ClockCountsTicks(s: State, es: seq<Event>)
    requires Legal(s, es)
    ensures Run(s, es).now == s.now + Ticks(es)
    decreases |es|
  {
    hide Enabled;
    if es != [] {
      assert Apply(s, es[0]).now == s.now + if es[0] == Tick then 1 else 0;
      ClockCountsTicks(Apply(s, es[0]), es[1..]);
    }
  }

  lemma {:induction false} RunAppend(s: State, es: seq<Event>, more: seq<Event>)
    ensures Legal(s, es + more) <==> Legal(s, es) && Legal(Run(s, es), more)
    ensures Legal(s, es + more) ==> Run(s, es + more) == Run(Run(s, es), more)
    decreases |es|
  {
    hide Enabled, Apply;
    if es == [] {
      assert es + more == more;
    } else {
      assert (es + more)[0] == es[0] && (es + more)[1..] == es[1..] + more;
      if Enabled(s, es[0]) {
        RunAppend(Apply(s, es[0]), es[1..], more);
      }
    }
  }

  lemma RunOne(s: State, e: Event)
    requires Enabled(s, e)
    ensures Legal(s, [e]) && Run(s, [e]) == Apply(s, e)
  {
    hide Enabled, Apply;
    assert [e][1..] == [];
  }

  /**
   Over every run: if `run_inner` publishes with some grace after `es`, the deadline is the time of that moment, which
   is one for each tick so far, plus the grace, ever after.
   */
  lemma PublishedInstant(s: State, es: seq<Event>, grace: nat, more: seq<Event>)
    requires Init(s) && Legal(s, es + [Publish(grace)] + more)
    ensures Run(s, es + [Publish(grace)] + more).deadline == Some(s.now + Ticks(es) + grace)
  {
    hide Enabled, Apply, Inv, Init, Legal, Run;
    RunAppend(s, es + [Publish(grace)], more);
    RunAppend(s, es, [Publish(grace)]);
    ClockCountsTicks(s, es);
    var r := Run(s, es);
    OnlyOne(r, Publish(grace));
    RunOne(r, Publish(grace));
    PublishSets(r, grace);
    InitInv(s);
    RunInv(s, es + [Publish(grace)]);
    DeadlineOnce(Run(s, es + [Publish(grace)]), more);
  }

  lemma OnlyOne(s: State, e: Event)
    requires Legal(s, [e])
    ensures Enabled(s, e)
  {
    hide Enabled;
  }

  lemma PublishSets(s: State, grace: nat)
    requires Enabled(s, Publish(grace))
    ensures Apply(s, Publish(grace)).deadline == Some(s.now + grace)
  {
  }

  /** Nothing else publishes: without it the deadline stays unset. */
  lemma {:induction false} OnlyPublishSets(s: State, es: seq<Event>)
    requires Legal(s, es) && s.deadline.None? && forall k :: 0 <= k < |es| ==> !es[k].Publish?
    ensures Run(s, es).deadline.None?
    decreases |es|
  {
    hide Enabled;
    if es != [] {
      assert !es[0].Publish?;
      OnlyPublishSets(Apply(s, es[0]), es[1..]);
    }
  }

  /** A run that is served can be shut down at any time, with any grace. */
  lemma ShutdownPossible(s: State, es: seq<Event>, grace: nat)
    requires Init(s) && Legal(s, es) && forall k :: 0 <= k < |es| ==> !es[k].Publish? && es[k] != Abandon
    ensures Enabled(Run(s, es), Publish(grace))
  {
    StillServing(s, es);
  }

  lemma {:induction false} StillServing(s: State, es: seq<Event>)
    requires s.main == Serving && Legal(s, es) && forall k :: 0 <= k < |es| ==> !es[k].Publish? && es[k] != Abandon
    ensures Run(s, es).main == Serving
    decreases |es|
  {
    if es != [] {
      assert !es[0].Publish? && es[0] != Abandon;
      StillServing(Apply(s, es[0]), es[1..]);
    }
  }

  // ---- What may go on before the deadline ----

  /** The deadline, if it is known at all, lies ahead. */
  predicate Early(s: State) {
    Seen(s).None? || s.now < Seen(s).value
  }

  /** In every reachable state before the deadline, a connection, request or relay has a turn that keeps its future. */
  lemma MayGoOn(s: State, es: seq<Event>, k: nat)
    requires Init(s) && Legal(s, es)
    ensures var r := Run(s, es);
            Early(r) && k < |r.tasks| && OwnsFuture(r.tasks[k]) && r.tasks[k].kind != Accept ==>
              && Enabled(r, Poll(k, 0, 0, [], false))
              && OwnsFuture(Apply(r, Poll(k, 0, 0, [], false)).tasks[k])
  {
    hide Init, Legal, Run;
    InitInv(s);
    RunInv(s, es);
    var r := Run(s, es);
    if k < |r.tasks| {
      assert TaskOk(r, r.tasks[k]);
    }
  }

  /** And it may end by itself at any time, before the deadline or after. */
  lemma MayEnd(s: State, k: nat)
    requires Inv(s) && k < |s.tasks| && OwnsFuture(s.tasks[k]) && s.tasks[k].kind != Accept
    ensures Enabled(s, Poll(k, 0, 0, [], true))
    ensures Apply(s, Poll(k, 0, 0, [], true)).tasks[k].phase == Cleaned
  {
    assert TaskOk(s, s.tasks[k]);
  }

  /** At any time, serving or draining, a connection, request or relay may end and let go of every sender it holds. */
  lemma MayLeave(s: State, k: nat)
    requires Inv(s) && k < |s.tasks| && OwnsFuture(s.tasks[k]) && s.tasks[k].kind != Accept
    ensures var es := [Poll(k, 0, 0, [], true), Release(k)];
            && Legal(s, es)
            && Run(s, es).tasks == s.tasks[k := Task(s.tasks[k].kind, Gone, 0)]
            && Run(s, es).senders == s.senders - 1 - s.tasks[k].clones
  {
    MayEnd(s, k);
    var e := Poll(k, 0, 0, [], true);
    var s' := Apply(s, e);
    RunOne(s', Release(k));
    assert s'.tasks == s.tasks[k := Task(s.tasks[k].kind, Cleaned, 0)];
    assert [e, Release(k)][1..] == [Release(k)];
  }

  /**
   Before the deadline every task may spawn what its code spawns: accept loops connections until the deadline is
   published, connections requests and relays, requests relays. The child runs and holds senders of its own.
   */
  lemma MaySpawn(s: State, es: seq<Event>, k: nat, kind: Kind, clones: nat)
    requires Init(s) && Legal(s, es)
    requires var r := Run(s, es);
             && Early(r) && k < |r.tasks| && OwnsFuture(r.tasks[k]) && !Asleep(r.tasks[k], r.now)
             && match r.tasks[k].kind
                case Accept => kind == Connection && Seen(r).None?
                case Connection => kind == Request || kind == Relay
                case Request => kind == Relay
                case Relay => false
    ensures var r := Run(s, es);
            var e := Poll(k, 1 + clones, 0, [Child(kind, clones)], false);
            && Enabled(r, e)
            && var r' := Apply(r, e);
            && r'.tasks[|r.tasks|..] == [Task(kind, Running, clones)]
            && OwnsFuture(r'.tasks[k]) && r'.senders == r.senders + 1 + clones
  {
    hide Init, Legal, Run;
    InitInv(s);
    RunInv(s, es);
    var r := Run(s, es);
    assert TaskOk(r, r.tasks[k]);
    OneBirth(Child(kind, clones));
  }

  lemma OneBirth(c: Child)
    ensures Births([c]) == [Task(c.kind, Running, c.clones)] && Sum(Held, Births([c])) == 1 + c.clones
  {
    assert [c][1..] == [];
    assert Births([c]) == [Born(c)] + [];
    assert [Born(c)][1..] == [];
  }

  /** From the publication on, an accept loop's every turn is its last; asleep, it has none. */
  lemma AcceptsStop(s: State, es: seq<Event>, e: Event)
    requires Init(s) && Legal(s, es) && e.Poll?
    requires var r := Run(s, es); Seen(r).Some? && Enabled(r, e) && r.tasks[e.i].kind == Accept
    ensures var r := Run(s, es);
            e.spawned == [] && !OwnsFuture(Apply(r, e).tasks[e.i]) && !Asleep(r.tasks[e.i], r.now)
  {
    hide Init, Legal, Run;
    InitInv(s);
    RunInv(s, es);
    assert TaskOk(Run(s, es), Run(s, es).tasks[e.i]);
  }

  /** After an accept error a loop sleeps for 100 milliseconds, and it may go on then. */
  lemma BackOffLasts(s: State, k: nat)
    requires k < |s.tasks| && Enabled(s, BackOff(k))
    ensures Apply(s, BackOff(k)).tasks[k].phase == Waiting(s.now + 100)
  {
  }

  /** If `run_inner` is dropped before publishing, every task sees the present as its deadline. */
  lemma AbandonedIsDue(s: State)
    requires Inv(s) && s.main == Serving && Enabled(s, Abandon)
    ensures Seen(Apply(s, Abandon)) == Some(s.now) && Due(Apply(s, Abandon))
  {
  }

  // ---- Returning before the deadline ----

  lemma EndingShrinks(s: State, k: nat)
    requires Inv(s) && k < |s.tasks| && OwnsFuture(s.tasks[k]) && Enabled(s, Poll(k, 0, 0, [], true))
    ensures Smaller(Apply(s, Poll(k, 0, 0, [], true)), s)
  {
    hide Smaller, WeightOf;
    var s' := Apply(s, Poll(k, 0, 0, [], true));
    var t := s'.tasks[k];
    assert s'.tasks == s.tasks[k := t] + [];
    assert s.tasks[k := t] + [] == s.tasks[k := t];
    EndingWork(s, s', k, Accept);
    EndingWork(s, s', k, Connection);
    EndingWork(s, s', k, Request);
    EndingWork(s, s', k, Relay);
    OneLess(s', s, s.tasks[k].kind);
  }

  lemma OneLess(s': State, s: State, kind: Kind)
    requires Work(s', Accept) == Work(s, Accept) - if kind == Accept then 1 else 0
    requires Work(s', Connection) == Work(s, Connection) - if kind == Connection then 1 else 0
    requires Work(s', Request) == Work(s, Request) - if kind == Request then 1 else 0
    requires Work(s', Relay) == Work(s, Relay) - if kind == Relay then 1 else 0
    ensures Smaller(s', s)
  {
    hide Work;
  }

  lemma EndingWork(s: State, s': State, k: nat, kind: Kind)
    requires k < |s.tasks| == |s'.tasks| && s'.tasks == s.tasks[k := s'.tasks[k]] && OwnsFuture(s.tasks[k])
    requires s'.tasks[k].kind == s.tasks[k].kind && (s'.tasks[k].phase.Cleaned? || s'.tasks[k].phase.Unguarded?)
    ensures Work(s', kind) == Work(s, kind) - if kind == s.tasks[k].kind then 1 else 0
  {
    SumUpdate(WeightOf(kind), s.tasks, k, s'.tasks[k]);
  }

  /** The next step on the shortest way out: end a task, let one go, or move `run` on; wait only for sleepers. */
  lemma WayOut(s: State) returns (e: Event)
    requires Inv(s) && Seen(s).Some? && s.main != Abandoned && !Finished(s)
    ensures Enabled(s, e) && e != Abandon && Seen(Apply(s, e)).Some?
    ensures if e == Tick then WaitLeft(s.tasks, s.now + 1) < WaitLeft(s.tasks, s.now)
            else Smaller(Apply(s, e), s) && WaitLeft(Apply(s, e).tasks, s.now) <= WaitLeft(s.tasks, s.now)
  {
    hide Smaller, WaitLeft;
    if k: nat :| k < |s.tasks| && Asleep(s.tasks[k], s.now) {
      WaitFalls(s.tasks, s.now);
      e := Tick;
    } else if k: nat :| k < |s.tasks| && !s.tasks[k].phase.Gone? {
      assert TaskOk(s, s.tasks[k]);
      var gone := s.tasks[k].(phase := Gone);
      if OwnsFuture(s.tasks[k]) {
        e := Poll(k, 0, 0, [], true);
        EndingShrinks(s, k);
        WaitUpdate(s.tasks, s.now, k, Apply(s, e).tasks[k]);
        assert Apply(s, e).tasks == s.tasks[k := Apply(s, e).tasks[k]];
      } else {
        e := Release(k);
        ReleaseShrinks(s, e);
        WaitUpdate(s.tasks, s.now, k, gone);
      }
    } else {
      e := MainOut(s);
    }
  }

  lemma MainOut(s: State) returns (e: Event)
    requires Inv(s) && Seen(s).Some? && s.main != Abandoned && !Finished(s)
    requires forall k :: 0 <= k < |s.tasks| ==> s.tasks[k].phase.Gone?
    ensures Enabled(s, e) && e != Abandon && e != Tick && Seen(Apply(s, e)).Some?
    ensures Smaller(Apply(s, e), s) && Apply(s, e).tasks == s.tasks
  {
    AllGoneHoldNothing(s.tasks);
    e := if s.poller then PollerExit
         else if s.main == JoinAccepts then AcceptsJoined
         else if s.main == JoinPoller then PollerJoined
         else if s.main == DropRoot then RootDropped
         else BarrierPassed;
  }

  lemma {:induction false} WaitUpdate(ts: seq<Task>, now: nat, k: nat, t: Task)
    requires k < |ts| && !t.phase.Waiting?
    ensures WaitLeft(ts[k := t], now) <= WaitLeft(ts, now)
    decreases |ts|
  {
    if k == 0 {
      assert ts[k := t][1..] == ts[1..];
    } else {
      assert ts[k := t][1..] == ts[1..][k - 1 := t];
      WaitUpdate(ts[1..], now, k - 1, t);
    }
  }

  /**
   The barrier does not wait for the deadline: from every reachable state after the publication `run_inner` can return,
   if its tasks end by themselves, as soon as no accept loop sleeps any more.
   */
  lemma EarlyReturn(s: State) returns (es: seq<Event>)
    requires Inv(s) && Seen(s).Some? && s.main != Abandoned
    ensures Legal(s, es) && Run(s, es).main == Returned && Run(s, es).now <= s.now + WaitLeft(s.tasks, s.now)
    decreases Work(s, Accept), Work(s, Connection), Work(s, Request), Work(s, Relay), MainWork(s),
              WaitLeft(s.tasks, s.now)
  {
    hide Inv, Seen, Enabled, Apply, Work, MainWork, Finished, WaitLeft;
    if Finished(s) {
      FinishedReturned(s);
      es := [];
    } else {
      var e := WayOut(s);
      StepInv(s, e);
      OneStep(s, e);
      if e == Tick {
        TickKeepsWork(s, Accept);
        TickKeepsWork(s, Connection);
        TickKeepsWork(s, Request);
        TickKeepsWork(s, Relay);
      }
      var rest := EarlyReturn(Apply(s, e));
      es := [e] + rest;
      assert es[1..] == rest;
    }
  }

  lemma FinishedReturned(s: State)
    requires Finished(s) && s.main != Abandoned
    ensures s.main == Returned
  {
  }

  lemma OneStep(s: State, e: Event)
    requires Enabled(s, e) && e != Abandon && s.main != Abandoned
    ensures Apply(s, e).main != Abandoned && Apply(s, e).now == s.now + if e == Tick then 1 else 0
    ensures e == Tick ==> Apply(s, e).tasks == s.tasks
  {
    hide PollAllowed;
  }
}
