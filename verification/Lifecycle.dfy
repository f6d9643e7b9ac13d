/**
 Shutdown and drain (`src/lifecycle.rs`, `run_inner` and `accept_loop` in `src/lib.rs`, the relay spawn in
 `src/websocket.rs`) as a transition system over an unbounded list of tasks.

 The completion barrier is a channel: every task holds clones of its sender, and `run_inner` waits until the
 last one is dropped. The shutdown deadline is a watch cell that is written once and then closed.
 One `Poll` is everything a task does in one turn, including the tasks it spawns.
 */
module Lifecycle {
  import opened Wrappers

  /** Accept loops spawn connections; connections spawn HTTP/2 request tasks and relays; requests spawn relays. */
  datatype Kind = Accept | Connection | Request | Relay

  datatype Phase =
    | Running                 // owns its future and has not seen the deadline
    | Waiting(wake: nat)      // accept loop only: sleeps after an accept error and looks at nothing until then
    | Bounded(deadline: nat)  // owns its future, under a timeout at that instant
    | Cleaned                 // future and sockets dropped, completion guard still held
    | Unguarded               // accept loop only: sender dropped, listener not yet
    | Gone

  /** `clones` counts the senders inside the future; the guard kept outside it is one more. */
  datatype Task = Task(kind: Kind, phase: Phase, clones: nat)

  datatype Main = Serving | JoinAccepts | JoinPoller | DropRoot | AwaitBarrier | Returned | Abandoned

  /** `open` says whether the writing end of the watch cell still exists. */
  datatype State = State(
    now: nat, deadline: Option<nat>, open: bool, senders: int, main: Main, poller: bool, tasks: seq<Task>)

  datatype Child = Child(kind: Kind, clones: nat)

  datatype Event =
    | Tick
    | Poll(i: nat, made: nat, dropped: nat, spawned: seq<Child>, completed: bool)
    | BackOff(i: nat)
    | Release(i: nat)
    | Publish(grace: nat)
    | AcceptsJoined
    | PollerExit
    | PollerJoined
    | RootDropped
    | BarrierPassed
    | Abandon

  /** How long an accept loop sleeps after an error, in milliseconds, the unit of the clock. */
  const BACK_OFF: nat := 100

  predicate CanSpawn(parent: Kind, child: Kind) {
    match parent
    case Accept => child == Connection
    case Connection => child == Request || child == Relay
    case Request => child == Relay
    case Relay => false
  }

  predicate OwnsFuture(t: Task) {
    t.phase.Running? || t.phase.Waiting? || t.phase.Bounded?
  }

  /** The task still holds a socket of some kind. */
  predicate OwnsSockets(t: Task) {
    OwnsFuture(t) || t.phase.Unguarded?
  }

  /** The senders a task keeps alive. */
  function Held(t: Task): nat {
    if OwnsFuture(t) then 1 + t.clones else if t.phase.Cleaned? then 1 else 0
  }

  predicate RootHeld(m: Main) {
    m != AwaitBarrier && m != Returned && m != Abandoned
  }

  /** What `deadline()` returns: the published instant, or the present once the cell is closed unwritten. */
  function Seen(s: State): Option<nat> {
    if s.deadline.Some? then s.deadline else if s.open then None else Some(s.now)
  }

  function Limit(s: State, t: Task): Option<nat> {
    if t.phase.Bounded? then Some(t.phase.deadline) else Seen(s)
  }

  function Sum(w: Task -> nat, ts: seq<Task>): nat {
    if ts == [] then 0 else w(ts[0]) + Sum(w, ts[1..])
  }

  function Born(c: Child): Task {
    Task(c.kind, Running, c.clones)
  }

  function Births(cs: seq<Child>): seq<Task> {
    if cs == [] then [] else [Born(cs[0])] + Births(cs[1..])
  }

  /** The task after a turn. Past its limit a future is dropped; an accept loop returns as soon as it sees one. */
  function Turned(s: State, e: Event): Task
    requires e.Poll? && e.i < |s.tasks|
    requires s.tasks[e.i].clones + e.made >= Sum(Held, Births(e.spawned)) + e.dropped
  {
    var t := s.tasks[e.i];
    if e.completed then Task(t.kind, if t.kind.Accept? then Unguarded else Cleaned, 0)
    else
      var limit := Limit(s, t);
      t.(phase := if limit.Some? then Bounded(limit.value) else Running,
         clones := t.clones + e.made - Sum(Held, Births(e.spawned)) - e.dropped)
  }

  predicate PollAllowed(s: State, e: Event)
    requires e.Poll?
  {
    && e.i < |s.tasks|
    && var t := s.tasks[e.i];
    && OwnsFuture(t)
    && (t.phase.Waiting? ==> t.phase.wake <= s.now)
    && s.tasks[e.i].clones + e.made >= Sum(Held, Births(e.spawned)) + e.dropped
    && (forall k :: 0 <= k < |e.spawned| ==> CanSpawn(t.kind, e.spawned[k].kind))
    && (if t.kind.Accept? then
          && (e.completed <==> Limit(s, t).Some?)
          && (e.completed ==> e.spawned == [])
        else
          Limit(s, t).Some? && Limit(s, t).value <= s.now ==> e.completed)
  }

  predicate Enabled(s: State, e: Event) {
    match e
    case Tick => true
    case Poll(_, _, _, _, _) => PollAllowed(s, e)
    case BackOff(i) => i < |s.tasks| && s.tasks[i].kind.Accept? && s.tasks[i].phase.Running? && Seen(s).None?
    case Release(i) => i < |s.tasks| && (s.tasks[i].phase.Cleaned? || s.tasks[i].phase.Unguarded?)
    case Publish(_) => s.main == Serving
    case AcceptsJoined =>
      && s.main == JoinAccepts
      && forall k :: 0 <= k < |s.tasks| && s.tasks[k].kind.Accept? ==> s.tasks[k].phase.Gone?
    case PollerExit => s.poller && Seen(s).Some?
    case PollerJoined => s.main == JoinPoller && !s.poller
    case RootDropped => s.main == DropRoot
    case BarrierPassed => s.main == AwaitBarrier && s.senders == 0
    case Abandon => s.main != Returned && s.main != Abandoned
  }

  /** How many senders a turn leaves: clones add, drops remove, and a dropped future drops its own. */
  function SendersAfter(s: State, e: Event): int
    requires e.Poll? && PollAllowed(s, e)
  {
    var t := s.tasks[e.i];
    var kept := t.clones + e.made - Sum(Held, Births(e.spawned)) - e.dropped;
    s.senders + e.made - e.dropped
    - (if e.completed then kept else 0)
    - (if e.completed && t.kind.Accept? then 1 else 0)
  }

  function Apply(s: State, e: Event): State
    requires Enabled(s, e)
  {
    match e
    case Tick => s.(now := s.now + 1)
    case Poll(i, _, _, spawned, _) =>
      s.(tasks := s.tasks[i := Turned(s, e)] + Births(spawned), senders := SendersAfter(s, e))
    case BackOff(i) => s.(tasks := s.tasks[i := s.tasks[i].(phase := Waiting(s.now + BACK_OFF))])
    case Release(i) =>
      s.(tasks := s.tasks[i := s.tasks[i].(phase := Gone)], senders := s.senders - Held(s.tasks[i]))
    case Publish(grace) => s.(deadline := Some(s.now + grace), main := JoinAccepts)
    case AcceptsJoined => s.(main := JoinPoller)
    case PollerExit => s.(poller := false)
    case PollerJoined => s.(main := DropRoot)
    case RootDropped => s.(main := AwaitBarrier, senders := s.senders - 1)
    case BarrierPassed => s.(main := Returned, open := false)
    case Abandon =>
      s.(main := Abandoned, open := false, senders := if RootHeld(s.main) then s.senders - 1 else s.senders)
  }

  /** `listeners` accept loops, each with its own clone, and the sender `run_inner` keeps. */
  predicate Init(s: State) {
    && s.main == Serving && s.deadline.None? && s.open
    && (forall k :: 0 <= k < |s.tasks| ==> s.tasks[k] == Task(Accept, Running, 0))
    && s.senders == 1 + |s.tasks|
  }

  /** What every reachable state satisfies. */
  predicate Inv(s: State) {
    && s.senders == (if RootHeld(s.main) then 1 else 0) + Sum(Held, s.tasks)
    && (s.main == Serving ==> s.deadline.None?)
    && (s.open <==> s.main != Returned && s.main != Abandoned)
    && (s.main != Serving && s.main != Abandoned ==> s.deadline.Some?)
    && (s.main == DropRoot || s.main == AwaitBarrier || s.main == Returned ==> !s.poller)
    && (forall k :: 0 <= k < |s.tasks| ==> TaskOk(s, s.tasks[k]))
  }

  predicate AcceptsAreGone(m: Main) {
    m == JoinPoller || m == DropRoot || m == AwaitBarrier || m == Returned
  }

  predicate TaskOk(s: State, t: Task) {
    && (t.phase.Bounded? && s.deadline.Some? ==> t.phase.deadline == s.deadline.value)
    && (t.phase.Bounded? && s.deadline.None? ==> s.main == Abandoned && t.phase.deadline <= s.now)
    && (t.kind.Accept? ==> !t.phase.Cleaned? && (AcceptsAreGone(s.main) ==> t.phase.Gone?))
    && (t.phase.Unguarded? || t.phase.Waiting? ==> t.kind.Accept?)
  }

  // ---- Sums ----

  lemma {:induction false} SumAppend(w: Task -> nat, a: seq<Task>, b: seq<Task>)
    ensures Sum(w, a + b) == Sum(w, a) + Sum(w, b)
    decreases |a|
  {
    if a == [] {
      assert a + b == b;
    } else {
      assert (a + b)[1..] == a[1..] + b;
      SumAppend(w, a[1..], b);
    }
  }

  lemma {:induction false} SumUpdate(w: Task -> nat, ts: seq<Task>, i: nat, t: Task)
    requires i < |ts|
    ensures Sum(w, ts[i := t]) + w(ts[i]) == Sum(w, ts) + w(t)
    ensures w(ts[i]) <= Sum(w, ts)
    decreases |ts|
  {
    if i == 0 {
      assert ts[0 := t][1..] == ts[1..];
    } else {
      assert ts[i := t][1..] == ts[1..][i - 1 := t];
      SumUpdate(w, ts[1..], i - 1, t);
    }
  }

  lemma {:induction false} SumZero(w: Task -> nat, ts: seq<Task>, k: nat)
    requires Sum(w, ts) == 0 && k < |ts|
    ensures w(ts[k]) == 0
    decreases |ts|
  {
    SumUpdate(w, ts, k, ts[k]);
  }

  /** A turn moves senders into children, makes some and drops some: the count follows exactly. */
  lemma TurnSenders(s: State, e: Event)
    requires Inv(s) && e.Poll? && PollAllowed(s, e)
    ensures SendersAfter(s, e) ==
            (if RootHeld(s.main) then 1 else 0) + Sum(Held, s.tasks[e.i := Turned(s, e)] + Births(e.spawned))
  {
    SumUpdate(Held, s.tasks, e.i, Turned(s, e));
    SumAppend(Held, s.tasks[e.i := Turned(s, e)], Births(e.spawned));
  }
}
