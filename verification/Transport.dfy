/**
 The transport verdict of the execution layer's upstream (`el_batch_detect` and `probe_once` in `src/health.rs`,
 its starting value in `src/lib.rs`): which HTTP client the poller uses next and requests are forwarded with.
 What an upstream answers through each client is a parameter of every poll, so it may change arbitrarily.
 */
module Transport {
  import opened Wrappers
  import opened ElBatch
  import opened ElResponses
  import opened Readiness
  import opened U64

  /** The default client speaks HTTP/1.1 in clear text and negotiates by ALPN over TLS. */
  datatype Client = Default | H2c

  type Answer = Result<Signals, HealthError>

  /** What a batch request would return through each client during one poll. */
  type Upstream = Client -> Answer

  function ClientFor(useH2: bool): Client {
    if useH2 then H2c else Default
  }

  predicate IsTransport(e: HealthError) {
    e.Transport? || e.Timeout?
  }

  /** The upstream was not reached at all; an HTTP status or an undecodable body shows that it was. */
  predicate Down(a: Answer) {
    a.Err? && IsTransport(a.error)
  }

  function Published(a: Answer): Signals {
    match a
    case Ok(s) => s
    case Err(e) => FromError(e)
  }

  /** The consensus layer's answers during one poll. */
  datatype Beacon = Beacon(status: Result<ClStatus, string>, peers: Result<u64, string>)

  function ProbeOf(s: Signals, b: Beacon): Probe {
    Probe(s.syncing, s.peers, s.block, b.status, b.peers)
  }

  /** What a trusted upstream is taken to say without being asked. */
  function TrustedProbe(): Probe {
    Probe(Ok(Synced(false)), Ok(100), Ok(ElBlock(0, 0)), Ok(ClStatus(0, 0, false)), Ok(64))
  }

  class Poller {
    const trusted: bool
    const https: bool
    var useH2: bool

    /** Over TLS the verdict names the default client. */
    ghost predicate Valid()
      reads this
    {
      https ==> !useH2
    }

    constructor (trusted: bool, https: bool)
      ensures Valid()
      ensures this.trusted == trusted && this.https == https && (useH2 <==> !trusted && !https)
    {
      this.trusted := trusted;
      this.https := https;
      useH2 := !trusted && !https;
    }

    /** One batch, with the other client as fallback; `calls` lists the clients asked, in order. */
    method BatchDetect(up: Upstream) returns (r: Signals, calls: seq<Client>)
      requires Valid()
      modifies this`useH2
      ensures Valid()
      ensures useH2 == Next(false, https, old(useH2), up)
      ensures var answer := up(if useH2 then H2c else Default);
              if answer.Ok? then r == answer.value
              else r.syncing == Err(answer.error) && r.peers == Err(answer.error) && r.block == Err(answer.error)
      ensures r == Published(up(ClientFor(useH2)))
      ensures 1 <= |calls| <= 2 && calls[0] == if old(useH2) then H2c else Default
      ensures |calls| == 2 <==>
                var first := up(calls[0]); !https && first.Err? && (first.error.Timeout? || first.error.Transport?)
      ensures |calls| == 2 ==> calls[1] != calls[0]
      ensures useH2 != old(useH2) <==>
                && |calls| == 2
                && var second := up(calls[1]); second.Ok? || !(second.error.Timeout? || second.error.Transport?)
    {
      if https {
        return Published(up(Default)), [Default];
      }
      var preferH2 := useH2;
      var primary := up(ClientFor(preferH2));
      calls := [ClientFor(preferH2)];
      var result := primary;
      if primary.Err? && IsTransport(primary.error) {
        var alternate := up(ClientFor(!preferH2));
        calls := calls + [ClientFor(!preferH2)];
        if !(alternate.Err? && IsTransport(alternate.error)) {
          useH2 := !preferH2;
          result := alternate;
        }
      }
      r := Published(result);
    }

    /** One poll of both layers; nothing the one answers touches what is published of the other. */
    method ProbeOnce(up: Upstream, beacon: Beacon) returns (p: Probe, calls: seq<Client>)
      requires Valid()
      modifies this`useH2
      ensures Valid()
      ensures useH2 == Next(trusted, https, old(useH2), up)
      ensures p == Found(trusted, useH2, up, beacon)
      ensures trusted ==>
                p == Probe(Ok(Synced(false)), Ok(100), Ok(ElBlock(0, 0)), Ok(ClStatus(0, 0, false)), Ok(64))
      ensures !trusted ==> p.clStatus == beacon.status && p.clPeers == beacon.peers
      ensures if trusted then calls == [] else 1 <= |calls| <= 2
    {
      if trusted {
        return TrustedProbe(), [];
      }
      var s: Signals;
      s, calls := BatchDetect(up);
      p := ProbeOf(s, beacon);
    }

    /** The poller's polls, one after the other; `ps` lists what each published. */
    method Run(ups: seq<Upstream>, beacons: seq<Beacon>) returns (ps: seq<Probe>)
      requires Valid() && |beacons| == |ups|
      modifies this`useH2
      ensures Valid()
      ensures useH2 == Verdict(trusted, https, old(useH2), ups)
      ensures |ps| == |ups|
      ensures forall k :: 0 <= k < |ups| ==>
                ps[k] == Found(trusted, Verdict(trusted, https, old(useH2), ups[..k + 1]), ups[k], beacons[k])
    {
      hide Found, Next;
      ps := [];
      for i := 0 to |ups|
        invariant Valid()
        invariant useH2 == Verdict(trusted, https, old(useH2), ups[..i])
        invariant |ps| == i
        invariant forall k :: 0 <= k < i ==>
                    ps[k] == Found(trusted, Verdict(trusted, https, old(useH2), ups[..k + 1]), ups[k], beacons[k])
      {
        var p, calls := ProbeOnce(ups[i], beacons[i]);
        VerdictStep(trusted, https, old(useH2), ups, i);
        ps := ps + [p];
      }
      assert ups[..|ups|] == ups;
    }
  }

  /** What a poll publishes, given the verdict it leaves. */
  function Found(trusted: bool, useH2: bool, up: Upstream, beacon: Beacon): Probe {
    if trusted then TrustedProbe() else ProbeOf(Published(up(ClientFor(useH2))), beacon)
  }

  // ---- The verdict over whole runs ----

  function Initial(trusted: bool, https: bool): bool {
    !trusted && !https
  }

  /** A poll changes the verdict exactly when its client is down and the other is not. */
  function Next(trusted: bool, https: bool, useH2: bool, up: Upstream): bool {
    if !trusted && !https && Down(up(ClientFor(useH2))) && !Down(up(ClientFor(!useH2))) then !useH2 else useH2
  }

  /** The verdict after a run of polls. */
  function Verdict(trusted: bool, https: bool, useH2: bool, ups: seq<Upstream>): bool
    decreases |ups|
  {
    if ups == [] then useH2
    else Next(trusted, https, Verdict(trusted, https, useH2, ups[..|ups| - 1]), ups[|ups| - 1])
  }

  lemma VerdictStep(trusted: bool, https: bool, useH2: bool, ups: seq<Upstream>, i: nat)
    requires i < |ups|
    ensures Verdict(trusted, https, useH2, ups[..i + 1]) ==
            Next(trusted, https, Verdict(trusted, https, useH2, ups[..i]), ups[i])
  {
    assert ups[..i + 1][..i] == ups[..i];
  }

  /** A client is down when it does not answer in time or cannot reach the upstream; any other error shows it is up. */
  lemma DownIff(a: Answer)
    ensures Down(a) <==> a == Err(Timeout) || exists t: string :: a == Err(HealthError.Transport(t))
  {
    if Down(a) && a.error.Transport? {
      assert a == Err(HealthError.Transport(a.error.text));
    }
  }

  /** Over TLS, or with a trusted upstream, no run ever leaves the default client. */
  lemma {:induction false} StaysDefault(trusted: bool, https: bool, ups: seq<Upstream>)
    requires trusted || https
    ensures ClientFor(Verdict(trusted, https, Initial(trusted, https), ups)) == Default
    decreases |ups|
  {
    if ups != [] {
      StaysDefault(trusted, https, ups[..|ups| - 1]);
    }
  }

  /** Whatever happened before, after a poll the client named is down only if that poll found every client down. */
  lemma NamedClientWorks(https: bool, useH2: bool, ups: seq<Upstream>)
    requires !https && ups != []
    ensures var up := ups[|ups| - 1];
            Down(up(ClientFor(Verdict(false, https, useH2, ups)))) <==> forall c :: Down(up(c))
  {
    var up := ups[|ups| - 1];
    var v := Verdict(false, https, useH2, ups);
    if Down(up(ClientFor(v))) {
      forall c
        ensures Down(up(c))
      {
        assert c == ClientFor(v) || c == ClientFor(!v);
      }
    }
  }

  /** Runs that reach nothing at all leave the verdict as it was. */
  lemma {:induction false} TotalFailureKeeps(trusted: bool, https: bool, useH2: bool, ups: seq<Upstream>)
    requires forall k :: 0 <= k < |ups| ==> Down(ups[k](Default)) && Down(ups[k](H2c))
    ensures Verdict(trusted, https, useH2, ups) == useH2
    decreases |ups|
  {
    if ups != [] {
      TotalFailureKeeps(trusted, https, useH2, ups[..|ups| - 1]);
    }
  }

  /** Two polls find the same clients reachable, whatever they are told through them. */
  predicate SameReach(a: Upstream, b: Upstream) {
    (Down(a(Default)) <==> Down(b(Default))) && (Down(a(H2c)) <==> Down(b(H2c)))
  }

  /** How often reachability differs between one poll and the next. */
  function Disturbances(ups: seq<Upstream>): nat
    decreases |ups|
  {
    if |ups| < 2 then 0
    else Disturbances(ups[..|ups| - 1]) + if SameReach(ups[|ups| - 2], ups[|ups| - 1]) then 0 else 1
  }

  /** How often a run changes the verdict. */
  function Switches(trusted: bool, https: bool, useH2: bool, ups: seq<Upstream>): nat
    decreases |ups|
  {
    if ups == [] then 0
    else
      var before := ups[..|ups| - 1];
      Switches(trusted, https, useH2, before)
      + if Verdict(trusted, https, useH2, ups) == Verdict(trusted, https, useH2, before) then 0 else 1
  }

  /** A poll that finds the same reachability as the one before it keeps the verdict. */
  lemma SettledPoll(trusted: bool, https: bool, useH2: bool, ups: seq<Upstream>)
    requires |ups| >= 2 && SameReach(ups[|ups| - 2], ups[|ups| - 1])
    ensures Verdict(trusted, https, useH2, ups) == Verdict(trusted, https, useH2, ups[..|ups| - 1])
  {
    VerdictStep(trusted, https, useH2, ups, |ups| - 2);
    assert ups[..|ups| - 2 + 1] == ups[..|ups| - 1];
  }

  /** The verdict never flaps: beyond the first poll it changes at most once per change of reachability. */
  lemma {:induction false} SwitchesBounded(trusted: bool, https: bool, useH2: bool, ups: seq<Upstream>)
    ensures Switches(trusted, https, useH2, ups) <= 1 + Disturbances(ups)
    decreases |ups|
  {
    if |ups| == 1 {
      assert ups[..0] == [];
    } else if |ups| >= 2 {
      var before := ups[..|ups| - 1];
      SwitchesBounded(trusted, https, useH2, before);
      if SameReach(ups[|ups| - 2], ups[|ups| - 1]) {
        SettledPoll(trusted, https, useH2, ups);
      }
    }
  }

  /** Against fixed reachability the verdict after any number of polls is the one after the first, and it works. */
  lemma {:induction false} SettlesInOnePoll(https: bool, useH2: bool, ups: seq<Upstream>)
    requires !https && ups != [] && forall k :: 0 <= k < |ups| ==> SameReach(ups[0], ups[k])
    ensures Verdict(false, https, useH2, ups) == Verdict(false, https, useH2, ups[..1])
    ensures (exists c :: !Down(ups[0](c))) ==> !Down(ups[0](ClientFor(Verdict(false, https, useH2, ups))))
    decreases |ups|
  {
    if |ups| == 1 {
      assert ups[..1] == ups;
      NamedClientWorks(https, useH2, ups);
    } else {
      var before := ups[..|ups| - 1];
      SettlesInOnePoll(https, useH2, before);
      assert before[..1] == ups[..1];
      assert SameReach(ups[0], ups[|ups| - 2]) && SameReach(ups[0], ups[|ups| - 1]);
      SettledPoll(false, https, useH2, ups);
    }
  }
}
