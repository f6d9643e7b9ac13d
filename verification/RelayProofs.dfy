/** What every interleaving of the relay keeps, and when mocking makes no difference. */
module RelayProofs {
  import opened Wrappers
  import opened Rpc
  import opened Relay

  // ---- What ought to be sent, as functions of what was read ----

  /** The messages up to and including the first close. */
  function UpToClose(ms: seq<Message>): seq<Message> {
    if ms == [] then [] else if ms[0].Close? then [ms[0]] else [ms[0]] + UpToClose(ms[1..])
  }

  predicate HandledHere(mock: bool, m: Message) {
    mock && m.TextMessage? && Classify(m.text) != Forward
  }

  function NotHandled(mock: bool, ms: seq<Message>): seq<Message> {
    if ms == [] then []
    else (if HandledHere(mock, ms[0]) then [] else [ms[0]]) + NotHandled(mock, ms[1..])
  }

  /** One reply for each text that calls for one, in order. */
  function Replies(mock: bool, ms: seq<Message>): seq<string> {
    if ms == [] then []
    else
      (if mock && ms[0].TextMessage? && Classify(ms[0].text).Reply? then [Classify(ms[0].text).text] else [])
      + Replies(mock, ms[1..])
  }

  function RelayedOnly(sent: seq<Sent>): seq<Message> {
    if sent == [] then [] else (if sent[0].Relayed? then [sent[0].message] else []) + RelayedOnly(sent[1..])
  }

  function AnsweredOnly(sent: seq<Sent>): seq<string> {
    if sent == [] then [] else (if sent[0].Answered? then [sent[0].text] else []) + AnsweredOnly(sent[1..])
  }

  predicate HasClose(ms: seq<Message>) {
    exists k :: 0 <= k < |ms| && ms[k].Close?
  }

  // ---- The same functions, one message later ----

  lemma HasCloseCons(ms: seq<Message>)
    requires ms != []
    ensures HasClose(ms) <==> ms[0].Close? || HasClose(ms[1..])
  {
    if k :| 0 <= k < |ms[1..]| && ms[1..][k].Close? {
      assert ms[k + 1].Close?;
    }
    if k :| 0 < k < |ms| && ms[k].Close? {
      assert ms[1..][k - 1].Close?;
    }
  }

  lemma HasCloseSnoc(ms: seq<Message>, m: Message)
    ensures HasClose(ms + [m]) <==> HasClose(ms) || m.Close?
  {
    assert (ms + [m])[|ms|] == m;
    assert forall k :: 0 <= k < |ms| ==> (ms + [m])[k] == ms[k];
  }

  lemma {:induction false} UpToCloseSnoc(ms: seq<Message>, m: Message)
    ensures UpToClose(ms + [m]) == if HasClose(ms) then UpToClose(ms) else UpToClose(ms) + [m]
    ensures HasClose(ms + [m]) <==> HasClose(ms) || m.Close?
    decreases |ms|
  {
    HasCloseSnoc(ms, m);
    if ms == [] {
      assert ms + [m] == [m];
    } else {
      hide HasClose;
      HasCloseCons(ms);
      assert (ms + [m])[1..] == ms[1..] + [m];
      UpToCloseSnoc(ms[1..], m);
    }
  }

  lemma {:induction false} NotHandledSnoc(mock: bool, ms: seq<Message>, m: Message)
    ensures NotHandled(mock, ms + [m]) == NotHandled(mock, ms) + if HandledHere(mock, m) then [] else [m]
    decreases |ms|
  {
    hide HandledHere;
    if ms == [] {
      assert ms + [m] == [m];
    } else {
      assert (ms + [m])[1..] == ms[1..] + [m];
      NotHandledSnoc(mock, ms[1..], m);
    }
  }

  lemma {:induction false} RepliesSnoc(mock: bool, ms: seq<Message>, m: Message)
    ensures Replies(mock, ms + [m]) ==
            Replies(mock, ms)
            + if mock && m.TextMessage? && Classify(m.text).Reply? then [Classify(m.text).text] else []
    decreases |ms|
  {
    hide Classify;
    if ms == [] {
      assert ms + [m] == [m];
    } else {
      assert (ms + [m])[1..] == ms[1..] + [m];
      RepliesSnoc(mock, ms[1..], m);
    }
  }

  lemma {:induction false} SentSnoc(sent: seq<Sent>, x: Sent)
    ensures RelayedOnly(sent + [x]) == RelayedOnly(sent) + if x.Relayed? then [x.message] else []
    ensures AnsweredOnly(sent + [x]) == AnsweredOnly(sent) + if x.Answered? then [x.text] else []
    decreases |sent|
  {
    if sent == [] {
      assert sent + [x] == [x];
    } else {
      assert (sent + [x])[1..] == sent[1..] + [x];
      SentSnoc(sent[1..], x);
    }
  }

  // ---- The invariant ----

  /** `done` is `due` or lacks only its last item. */
  predicate AlmostAll<T(==)>(done: seq<T>, due: seq<T>) {
    done == due || (|due| > 0 && done == due[..|due| - 1])
  }

  /** Done so far plus at most one item is due: nothing is reordered, duplicated or skipped. */
  predicate Follows<T(==)>(done: seq<T>, due: seq<T>, current: Option<T>, over: bool) {
    if over then AlmostAll(done, due)
    else if current.Some? then done + [current.value] == due
    else done == due
  }

  function Held(h: Half): Option<Message> {
    if h.Holding? then Some(h.message) else None
  }

  function Owed(h: Half): Option<string> {
    if h.Answering? then Some(h.reply) else None
  }

  predicate HoldsClose(h: Half) {
    h.Holding? && h.message.Close?
  }

  predicate Over(h: Half) {
    h.Flushing? || h.Finished?
  }

  /** What the client loop has done with what it has read. */
  ghost predicate ClientOk(mock: bool, s: State) {
    && Follows(s.toUpstream, NotHandled(mock, UpToClose(s.fromClient)), Held(s.client), Over(s.client))
    && Follows(AnsweredOnly(s.toClient), Replies(mock, UpToClose(s.fromClient)), Owed(s.client), Over(s.client))
    && (HasClose(s.fromClient) ==> Over(s.client) || HoldsClose(s.client))
    && (HoldsClose(s.client) || s.client.Flushing? ==> HasClose(s.fromClient))
  }

  ghost predicate UpstreamOk(s: State) {
    && !s.upstream.Answering?
    && Follows(RelayedOnly(s.toClient), UpToClose(s.fromUpstream), Held(s.upstream), Over(s.upstream))
    && (HasClose(s.fromUpstream) ==> Over(s.upstream) || HoldsClose(s.upstream))
    && (HoldsClose(s.upstream) || s.upstream.Flushing? ==> HasClose(s.fromUpstream))
  }

  /** The mutex is held only by the loop that is about to use the client sink. */
  predicate LockOk(mock: bool, s: State) {
    && (s.lock == Some(ClientSide) ==> s.client.Answering?)
    && (s.lock == Some(UpstreamSide) ==> s.upstream.Holding?)
    && (!mock ==> s.lock.None? && !s.client.Answering?)
  }

  ghost predicate Inv(mock: bool, s: State) {
    ClientOk(mock, s) && UpstreamOk(s) && LockOk(mock, s)
  }

  lemma StartInv(mock: bool)
    ensures Inv(mock, START)
  {
  }

  lemma ClientReads(mock: bool, s: State, m: Message)
    requires ClientOk(mock, s) && s.client.Reading?
    ensures ClientOk(mock, Apply(mock, s, Read(ClientSide, m)))
  {
    hide Classify, UpToClose, NotHandled, Replies, HasClose, AnsweredOnly;
    UpToCloseSnoc(s.fromClient, m);
    NotHandledSnoc(mock, UpToClose(s.fromClient), m);
    RepliesSnoc(mock, UpToClose(s.fromClient), m);
  }

  lemma UpstreamReads(mock: bool, s: State, m: Message)
    requires UpstreamOk(s) && s.upstream.Reading?
    ensures UpstreamOk(Apply(mock, s, Read(UpstreamSide, m)))
  {
    hide UpToClose, HasClose, RelayedOnly;
    UpToCloseSnoc(s.fromUpstream, m);
  }

  lemma FlushReads(mock: bool, s: State, e: Event)
    requires Inv(mock, s) && e.Flush? && Enabled(mock, s, e)
    ensures Inv(mock, Apply(mock, s, e))
  {
    hide UpToClose, NotHandled, Replies, HasClose, AnsweredOnly, RelayedOnly;
    if e.extra.Some? {
      UpToCloseSnoc(if e.side == ClientSide then s.fromClient else s.fromUpstream, e.extra.value);
    }
  }

  lemma SendKeeps(mock: bool, s: State, e: Event)
    requires Inv(mock, s) && (e.SendUpstream? || e.SendClient? || e.SendReply?) && Enabled(mock, s, e)
    ensures Inv(mock, Apply(mock, s, e))
  {
    hide UpToClose, NotHandled, Replies, HasClose, AnsweredOnly, RelayedOnly;
    if e.SendClient? {
      SentSnoc(s.toClient, Relayed(s.upstream.message));
    } else if e.SendReply? {
      SentSnoc(s.toClient, Answered(s.client.reply));
    }
  }

  lemma StepInv(mock: bool, s: State, e: Event)
    requires Inv(mock, s) && Enabled(mock, s, e)
    ensures Inv(mock, Apply(mock, s, e))
  {
    hide UpToClose, NotHandled, Replies, HasClose, AnsweredOnly, RelayedOnly, Classify;
    match e
    case Read(side, m) =>
      if side == ClientSide {
        ClientReads(mock, s, m);
      } else {
        UpstreamReads(mock, s, m);
      }
    case Flush(_, _) => FlushReads(mock, s, e);
    case SendUpstream(_, _) => SendKeeps(mock, s, e);
    case SendClient(_, _) => SendKeeps(mock, s, e);
    case SendReply(_, _) => SendKeeps(mock, s, e);
    case _ =>
  }

  lemma {:induction false} RunInv(mock: bool, s: State, es: seq<Event>)
    requires Inv(mock, s) && Legal(mock, s, es)
    ensures Inv(mock, Run(mock, s, es))
    decreases |es|
  {
    hide Inv, Enabled, Apply;
    if es != [] {
      StepInv(mock, s, es[0]);
      RunInv(mock, Apply(mock, s, es[0]), es[1..]);
    }
  }

  /**
   Relay safety, over every interleaving, with and without mocking. The upstream is sent the client's messages that
   are not handled locally, in order; the client is sent a merge of the upstream's messages, in order, and one reply
   per text that calls for one, in order. Each of the three lags what was read by at most one item, and nothing read
   after a close is part of any of them.
   */
  lemma RelaySafety(mock: bool, es: seq<Event>)
    requires Legal(mock, START, es)
    ensures var r := Run(mock, START, es);
            && AlmostAll(r.toUpstream, NotHandled(mock, UpToClose(r.fromClient)))
            && AlmostAll(RelayedOnly(r.toClient), UpToClose(r.fromUpstream))
            && AlmostAll(AnsweredOnly(r.toClient), Replies(mock, UpToClose(r.fromClient)))
    ensures !mock ==> AnsweredOnly(Run(mock, START, es).toClient) == []
  {
    hide UpToClose, NotHandled, Replies, HasClose, AnsweredOnly, RelayedOnly;
    StartInv(mock);
    RunInv(mock, START, es);
    var r := Run(mock, START, es);
    SnocPrefix(r.toUpstream, Held(r.client));
    SnocPrefix(RelayedOnly(r.toClient), Held(r.upstream));
    SnocPrefix(AnsweredOnly(r.toClient), Owed(r.client));
    NoReplies(UpToClose(r.fromClient));
  }

  lemma SnocPrefix<T>(done: seq<T>, current: Option<T>)
    ensures current.Some? ==>
              var due := done + [current.value]; |due| > 0 && done == due[..|due| - 1]
  {
  }

  lemma {:induction false} NoReplies(ms: seq<Message>)
    ensures Replies(false, ms) == [] && NotHandled(false, ms) == ms
    decreases |ms|
  {
    if ms != [] {
      NoReplies(ms[1..]);
    }
  }

  /** Only the last message relayed in either direction can be a close. */
  lemma NothingAfterClose(mock: bool, es: seq<Event>, k: nat)
    requires Legal(mock, START, es)
    ensures var sent := Run(mock, START, es).toUpstream; k + 1 < |sent| ==> !sent[k].Close?
    ensures var sent := RelayedOnly(Run(mock, START, es).toClient); k + 1 < |sent| ==> !sent[k].Close?
  {
    hide UpToClose, NotHandled, Replies, HasClose, AnsweredOnly, RelayedOnly;
    RelaySafety(mock, es);
    var r := Run(mock, START, es);
    CloseIsLast(mock, r.fromClient);
    CloseIsLast(mock, r.fromUpstream);
  }

  predicate ClosesLast(ms: seq<Message>) {
    forall k :: 0 <= k < |ms| - 1 ==> !ms[k].Close?
  }

  lemma ClosesLastCons(m: Message, rest: seq<Message>)
    requires ClosesLast(rest) && !m.Close?
    ensures ClosesLast([m] + rest)
  {
    assert forall k :: 1 <= k < |rest| ==> ([m] + rest)[k] == rest[k - 1];
  }

  lemma {:induction false} CloseIsLast(mock: bool, ms: seq<Message>)
    ensures ClosesLast(UpToClose(ms)) && ClosesLast(NotHandled(mock, UpToClose(ms)))
    decreases |ms|
  {
    hide HandledHere, ClosesLast;
    if ms == [] || ms[0].Close? {
      ShortClosesLast(UpToClose(ms));
      assert |UpToClose(ms)| <= 1;
      if ms != [] {
        assert UpToClose(ms)[1..] == [];
      }
      ShortClosesLast(NotHandled(mock, UpToClose(ms)));
    } else {
      CloseIsLast(mock, ms[1..]);
      var up := UpToClose(ms[1..]);
      assert UpToClose(ms) == [ms[0]] + up;
      assert ([ms[0]] + up)[1..] == up;
      ClosesLastCons(ms[0], up);
      ClosesLastCons(ms[0], NotHandled(mock, up));
      assert [] + NotHandled(mock, up) == NotHandled(mock, up);
    }
  }

  lemma ShortClosesLast(ms: seq<Message>)
    ensures |ms| <= 1 ==> ClosesLast(ms)
  {
  }

  // ---- With nothing to answer, mocking leaves no trace ----

  /** The state without the mutex, which the plain relay does not have. */
  function Erase(s: State): State {
    s.(lock := None)
  }

  /** The event reads no client text that would be handled locally. */
  predicate Unhandled(e: Event) {
    e.Read? && e.side == ClientSide ==> !HandledHere(true, e.message)
  }

  predicate AllUnhandled(es: seq<Event>) {
    forall k :: 0 <= k < |es| ==> Unhandled(es[k])
  }

  /** The mock relay's events without its lock steps. */
  function WithoutLocks(es: seq<Event>): seq<Event> {
    if es == [] then [] else (if es[0].Lock? then [] else [es[0]]) + WithoutLocks(es[1..])
  }

  /** A step of the mock relay is a step of the plain one, or takes the mutex and changes nothing visible. */
  lemma MockStepIsPlain(s: State, e: Event)
    requires Enabled(true, s, e) && !s.client.Answering? && Unhandled(e)
    ensures var s' := Apply(true, s, e);
            && !s'.client.Answering?
            && if e.Lock? then Erase(s') == Erase(s)
               else Enabled(false, Erase(s), e) && Apply(false, Erase(s), e) == Erase(s')
  {
    hide Classify;
  }

  lemma {:induction false} MockRunIsPlain(s: State, es: seq<Event>)
    requires Legal(true, s, es) && !s.client.Answering? && AllUnhandled(es)
    ensures Legal(false, Erase(s), WithoutLocks(es))
    ensures Run(false, Erase(s), WithoutLocks(es)) == Erase(Run(true, s, es))
    decreases |es|
  {
    hide Enabled, Apply, Erase, Unhandled;
    if es != [] {
      MockStepIsPlain(s, es[0]);
      var s' := Apply(true, s, es[0]);
      MockRunIsPlain(s', es[1..]);
      if es[0].Lock? {
        assert WithoutLocks(es) == WithoutLocks(es[1..]);
      } else {
        assert WithoutLocks(es)[1..] == WithoutLocks(es[1..]);
      }
    }
  }

  /** The plain relay's events with a lock step before each message to the client. */
  function WithLocks(es: seq<Event>): seq<Event> {
    if es == [] then []
    else (if es[0].SendClient? then [Lock(UpstreamSide), es[0]] else [es[0]]) + WithLocks(es[1..])
  }

  lemma PlainStepIsMock(s: State, e: Event)
    requires Enabled(false, s, e) && s.lock.None? && !s.client.Answering? && Unhandled(e)
    ensures !e.Lock? && !e.SendReply?
    ensures var s' := Apply(false, s, e);
            && s'.lock.None? && !s'.client.Answering?
            && if e.SendClient? then
                 && Enabled(true, s, Lock(UpstreamSide))
                 && Enabled(true, Apply(true, s, Lock(UpstreamSide)), e)
                 && Apply(true, Apply(true, s, Lock(UpstreamSide)), e) == s'
               else Enabled(true, s, e) && Apply(true, s, e) == s'
  {
    hide Classify;
  }

  lemma {:induction false} PlainRunIsMock(s: State, es: seq<Event>)
    requires Legal(false, s, es) && s.lock.None? && !s.client.Answering? && AllUnhandled(es)
    ensures Legal(true, s, WithLocks(es)) && Run(true, s, WithLocks(es)) == Run(false, s, es)
    decreases |es|
  {
    hide Enabled, Apply, Unhandled;
    if es != [] {
      PlainStepIsMock(s, es[0]);
      var s' := Apply(false, s, es[0]);
      PlainRunIsMock(s', es[1..]);
      if es[0].SendClient? {
        var locked := [es[0]] + WithLocks(es[1..]);
        assert WithLocks(es)[1..] == locked;
        assert locked[1..] == WithLocks(es[1..]);
      } else {
        assert WithLocks(es)[1..] == WithLocks(es[1..]);
      }
    }
  }

  /**
   Mocking is transparent: over client texts that are not handled locally, the mock relay and the plain relay have
   the same histories. Each run of one has a run of the other that reads and sends the same things and stops alike.
   */
  lemma SameTraces(mocked: seq<Event>, plain: seq<Event>)
    requires Legal(true, START, mocked) && AllUnhandled(mocked)
    requires Legal(false, START, plain) && AllUnhandled(plain)
    ensures Legal(false, START, WithoutLocks(mocked))
    ensures Run(false, START, WithoutLocks(mocked)) == Erase(Run(true, START, mocked))
    ensures Legal(true, START, WithLocks(plain)) && Run(true, START, WithLocks(plain)) == Run(false, START, plain)
  {
    MockRunIsPlain(START, mocked);
    PlainRunIsMock(START, plain);
  }
}
