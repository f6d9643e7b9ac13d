/**
 Readiness of the node (`evaluate_ready` and its checks in `src/health.rs`) and the log of its changes (`poll_loop`
 and `readiness_transition`). Of each check only its verdict is modelled, not its text.
 */
module Readiness {
  import opened Wrappers
  import opened U64
  import opened ElBatch
  import opened ElResponses

  datatype ClStatus = ClStatus(headSlot: u64, syncDistance: u64, isSyncing: bool)

  /** What one poll finds out. */
  datatype Probe = Probe(syncing: Result<ElSyncing, HealthError>, peers: Result<u64, HealthError>,
                         block: Result<ElBlock, HealthError>, clStatus: Result<ClStatus, string>,
                         clPeers: Result<u64, string>)

  datatype Config = Config(trustUpstream: bool, strict: bool, maxBlockAge: u64, maxSlotAge: u64, genesis: u64,
                           perSlot: u64)

  datatype Report = Report(ready: bool, elSyncing: bool, clSyncing: bool, blockFresh: Option<bool>,
                           slotFresh: Option<bool>)

  // ---- The code's checks ----

  function SlotAge(headSlot: u64, genesis: u64, perSlot: u64, now: u64): u64 {
    SatSub(now, SatAdd(genesis, SatMul(headSlot, perSlot)))
  }

  function CheckElSyncing(r: Result<ElSyncing, HealthError>): bool {
    match r
    case Ok(Synced(flag)) => !flag
    case Ok(Syncing(_, _)) => false
    case Err(_) => false
  }

  function CheckClSyncing(r: Result<ClStatus, string>): bool {
    match r
    case Ok(s) => !s.isSyncing
    case Err(_) => false
  }

  function CheckBlockFresh(r: Result<ElBlock, HealthError>, maxAge: u64, now: u64): bool {
    match r
    case Ok(b) => SatSub(now, b.timestamp) <= maxAge
    case Err(_) => false
  }

  function CheckSlotFresh(r: Result<ClStatus, string>, genesis: u64, perSlot: u64, maxAge: u64, now: u64): bool {
    match r
    case Ok(s) => genesis == 0 || SlotAge(s.headSlot, genesis, perSlot, now) <= maxAge
    case Err(_) => false
  }

  function EvaluateReady(c: Config, p: Probe, now: u64): Report {
    if c.trustUpstream then Report(true, true, true, None, None)
    else
      var el := CheckElSyncing(p.syncing);
      var cl := CheckClSyncing(p.clStatus);
      var block := if c.strict then Some(CheckBlockFresh(p.block, c.maxBlockAge, now)) else None;
      var slot := if c.strict then Some(CheckSlotFresh(p.clStatus, c.genesis, c.perSlot, c.maxSlotAge, now)) else None;
      Report(el && cl && (block.None? || block.value) && (slot.None? || slot.value), el, cl, block, slot)
  }

  // ---- What they mean over unbounded integers ----

  /** Saturation never shows: the age is the exact distance past the due time, or zero before it. */
  lemma SlotAgeExact(headSlot: u64, genesis: u64, perSlot: u64, now: u64)
    ensures var late := now as int - (genesis as int + headSlot as int * perSlot as int);
            SlotAge(headSlot, genesis, perSlot, now) as int == if late > 0 then late else 0
  {
    ProductSign(headSlot as int, perSlot as int);
  }

  /** Readiness and each of its parts in exact arithmetic. */
  lemma ReadyIff(c: Config, p: Probe, now: u64)
    ensures var r := EvaluateReady(c, p, now);
            var elSynced := p.syncing == Ok(Synced(false));
            var clSynced := p.clStatus.Ok? && !p.clStatus.value.isSyncing;
            var blockFresh := p.block.Ok? && now as int <= p.block.value.timestamp as int + c.maxBlockAge as int;
            var slotFresh :=
              && p.clStatus.Ok?
              && (c.genesis == 0
                  || now as int <= c.genesis as int + p.clStatus.value.headSlot as int * c.perSlot as int
                                   + c.maxSlotAge as int);
            && (r.ready <==> c.trustUpstream || (elSynced && clSynced && (c.strict ==> blockFresh && slotFresh)))
            && (r.elSyncing <==> c.trustUpstream || elSynced)
            && (r.clSyncing <==> c.trustUpstream || clSynced)
            && r.blockFresh == (if c.strict && !c.trustUpstream then Some(blockFresh) else None)
            && r.slotFresh == (if c.strict && !c.trustUpstream then Some(slotFresh) else None)
  {
    if p.clStatus.Ok? {
      SlotAgeExact(p.clStatus.value.headSlot, c.genesis, c.perSlot, now);
    }
  }

  lemma StrictImpliesDefault(c: Config, p: Probe, now: u64, later: u64)
    requires EvaluateReady(c.(strict := true), p, now).ready
    ensures EvaluateReady(c.(strict := false), p, later).ready
  {
    ReadyIff(c.(strict := true), p, now);
    ReadyIff(c.(strict := false), p, later);
  }

  /** For one probe, readiness once lost does not return as the clock advances; without strictness it never moves. */
  lemma NeverReturns(c: Config, p: Probe, now: u64, later: u64)
    requires now <= later
    ensures EvaluateReady(c, p, later).ready ==> EvaluateReady(c, p, now).ready
    ensures c.trustUpstream || !c.strict ==> EvaluateReady(c, p, later) == EvaluateReady(c, p, now)
  {
    ReadyIff(c, p, now);
    ReadyIff(c, p, later);
  }

  // ---- The log of changes ----

  datatype Transition = Silent | BecameNotReady | Recovered

  /** A log line and the number of the poll that wrote it, which stands for its time stamp. */
  datatype Line = Line(poll: nat, what: Transition)

  /** One turn of the loop: stopped before its poll ended, or a verdict that was or was not delivered. */
  datatype Turn = Stopped | Polled(ready: bool, delivered: bool)

  function ReadinessTransition(prev: Option<bool>, ready: bool): Transition {
    match prev
    case Some(p) =>
      if p == ready then Silent else if ready then Recovered else BecameNotReady
    case None =>
      if ready then Silent else BecameNotReady
  }

  /** The verdicts the loop gets to see: up to a stop, and none after one that nobody receives. */
  function Seen(turns: seq<Turn>): seq<bool> {
    if turns == [] || turns[0].Stopped? then []
    else [turns[0].ready] + if turns[0].delivered then Seen(turns[1..]) else []
  }

  /** The state before poll `k`; before the first, the log stands for a ready node. */
  function Before(rs: seq<bool>, k: nat): bool
    requires k <= |rs|
  {
    if k == 0 then true else rs[k - 1]
  }

  /** One line for each change, written by the poll that saw it. */
  function Log(rs: seq<bool>): seq<Line>
    decreases |rs|
  {
    if rs == [] then []
    else
      var n := |rs| - 1;
      Log(rs[..n]) + if rs[n] == Before(rs, n) then [] else [Line(n, if rs[n] then Recovered else BecameNotReady)]
  }

  lemma LogStep(rs: seq<bool>, r: bool)
    ensures Log(rs + [r]) ==
            Log(rs) + if r == Before(rs, |rs|) then [] else [Line(|rs|, if r then Recovered else BecameNotReady)]
  {
    assert (rs + [r])[..|rs|] == rs;
    assert Before(rs + [r], |rs|) == Before(rs, |rs|);
  }

  /**
   What the loop sees, written out: the verdicts of the polls that are delivered, and of the first that is not; nothing
   after that, and nothing of a turn that is stopped.
   */
  lemma {:induction false} SeenExact(turns: seq<Turn>, n: nat)
    requires n <= |turns| && forall k :: 0 <= k < n ==> turns[k].Polled? && turns[k].delivered
    requires n < |turns| ==> turns[n].Stopped? || !turns[n].delivered
    ensures |Seen(turns)| == if n < |turns| && turns[n].Polled? then n + 1 else n
    ensures forall k :: 0 <= k < |Seen(turns)| ==> Seen(turns)[k] == turns[k].ready
    decreases n
  {
    if n > 0 {
      SeenExact(turns[1..], n - 1);
    }
  }

  /** The loop: log a change, remember the verdict, deliver the probe, end when stopped or when nobody listens. */
  method PollLoop(turns: seq<Turn>) returns (lines: seq<Line>)
    ensures lines == Log(Seen(turns))
  {
    hide Log, Seen;
    var prevReady: Option<bool> := None;
    lines := [];
    ghost var rs: seq<bool> := [];
    LoopStarts(turns);
    for i := 0 to |turns|
      invariant Seen(turns) == rs + Seen(turns[i..]) && |rs| == i
      invariant lines == Log(rs)
      invariant prevReady == if rs == [] then None else Some(rs[i - 1])
    {
      SeenStep(turns[i..]);
      if turns[i].Stopped? {
        assert rs + [] == rs;
        return;
      }
      var ready := turns[i].ready;
      var t := ReadinessTransition(prevReady, ready);
      if t != Silent {
        lines := lines + [Line(i, t)];
      }
      LogStep(rs, ready);
      rs := rs + [ready];
      prevReady := Some(ready);
      if !turns[i].delivered {
        return;
      }
      assert turns[i..][1..] == turns[i + 1..];
    }
    LoopEnds(turns);
    assert rs + [] == rs;
  }

  lemma LoopStarts(turns: seq<Turn>)
    ensures [] + Seen(turns[0..]) == Seen(turns) && Log([]) == []
  {
    assert turns[0..] == turns;
  }

  lemma LoopEnds(turns: seq<Turn>)
    ensures Seen(turns[|turns|..]) == []
  {
  }

  lemma SeenStep(turns: seq<Turn>)
    requires turns != []
    ensures Seen(turns) == if turns[0].Stopped? then []
                           else if turns[0].delivered then [turns[0].ready] + Seen(turns[1..]) else [turns[0].ready]
  {
  }

  // ---- The log loses nothing ----

  /** Lines alternate and start with a loss of readiness; their poll numbers increase. */
  lemma {:induction false} LogAlternates(rs: seq<bool>)
    ensures forall k :: 0 <= k < |Log(rs)| ==> Log(rs)[k].what == if k % 2 == 0 then BecameNotReady else Recovered
    ensures forall j, k :: 0 <= j < k < |Log(rs)| ==> Log(rs)[j].poll < Log(rs)[k].poll
    ensures forall k :: 0 <= k < |Log(rs)| ==> Log(rs)[k].poll < |rs|
    ensures Before(rs, |rs|) <==> |Log(rs)| % 2 == 0
    decreases |rs|
  {
    if rs != [] {
      var n := |rs| - 1;
      LogAlternates(rs[..n]);
      assert Before(rs[..n], n) == Before(rs, n);
    }
  }

  lemma LogSplit(rs: seq<bool>)
    requires rs != []
    ensures var n, longer := |rs| - 1, Log(rs);
            if rs[n] == Before(rs, n) then Log(rs[..n]) == longer
            else |longer| > 0 && longer[|longer| - 1].poll == n && Log(rs[..n]) == longer[..|longer| - 1]
  {
  }

  /** A poll wrote a line exactly when it saw a change. */
  lemma {:induction false} LineIff(rs: seq<bool>, k: nat)
    requires k < |rs|
    ensures (exists j :: 0 <= j < |Log(rs)| && Log(rs)[j].poll == k) <==>
            rs[k] != if k == 0 then true else rs[k - 1]
    decreases |rs|
  {
    hide Log;
    var n := |rs| - 1;
    var shorter, longer := Log(rs[..n]), Log(rs);
    LogSplit(rs);
    LogAlternates(rs[..n]);
    assert forall j :: 0 <= j < |shorter| ==> longer[j] == shorter[j];
    if k < n {
      LineIff(rs[..n], k);
      assert Before(rs[..n], k) == Before(rs, k);
      if j :| 0 <= j < |shorter| && shorter[j].poll == k {
        assert longer[j].poll == k;
      }
    }
  }

  /** The current state is what the last line says, and ready when there is none. */
  lemma {:induction false} CurrentState(rs: seq<bool>)
    requires rs != []
    ensures rs[|rs| - 1] <==> Log(rs) == [] || Log(rs)[|Log(rs)| - 1].what == Recovered
  {
    hide Log;
    LogAlternates(rs);
    var n := |Log(rs)|;
    if n > 0 {
      assert (n - 1) % 2 == 0 <==> n % 2 != 0;
      var last := Log(rs)[n - 1];
    }
  }

  /** Two runs of equally many polls with the same log saw the same verdicts. */
  lemma {:induction false} LogLossless(rs: seq<bool>, ts: seq<bool>)
    requires |rs| == |ts| && Log(rs) == Log(ts)
    ensures rs == ts
    decreases |rs|
  {
    hide Log;
    if rs != [] {
      var n := |rs| - 1;
      LineIff(rs, n);
      LineIff(ts, n);
      LogSplit(rs);
      LogSplit(ts);
      CurrentState(rs);
      CurrentState(ts);
      LogLossless(rs[..n], ts[..n]);
      assert rs == rs[..n] + [rs[n]] && ts == ts[..n] + [ts[n]];
    }
  }
}
