/** The other half of the relay: everything said is passed on, and a direction ends only for a reason. */
module RelayProgress {
  import opened Wrappers
  import opened Relay
  import opened RelayProofs
  import opened Rpc

  // ---- Runs in pieces ----

  lemma {:induction false} RunAppend(mock: bool, s: State, es: seq<Event>, more: seq<Event>)
    ensures Legal(mock, s, es + more) <==> Legal(mock, s, es) && Legal(mock, Run(mock, s, es), more)
    ensures Legal(mock, s, es + more) ==> Run(mock, s, es + more) == Run(mock, Run(mock, s, es), more)
    decreases |es|
  {
    hide Enabled, Apply;
    if es == [] {
      assert es + more == more;
    } else {
      assert (es + more)[0] == es[0] && (es + more)[1..] == es[1..] + more;
      if Enabled(mock, s, es[0]) {
        RunAppend(mock, Apply(mock, s, es[0]), es[1..], more);
      }
    }
  }

  lemma OneStep(mock: bool, s: State, e: Event)
    requires Enabled(mock, s, e)
    ensures Legal(mock, s, [e]) && Run(mock, s, [e]) == Apply(mock, s, e)
  {
    hide Enabled, Apply;
    assert [e][1..] == [];
  }

  lemma TwoSteps(mock: bool, s: State, e: Event, f: Event)
    requires Enabled(mock, s, e) && Enabled(mock, Apply(mock, s, e), f)
    ensures Legal(mock, s, [e, f]) && Run(mock, s, [e, f]) == Apply(mock, Apply(mock, s, e), f)
  {
    hide Enabled, Apply;
    OneStep(mock, Apply(mock, s, e), f);
    assert [e, f][1..] == [f];
  }

  lemma ThreeSteps(mock: bool, s: State, e: Event, f: Event, g: Event)
    requires Enabled(mock, s, e) && Enabled(mock, Apply(mock, s, e), f)
    requires Enabled(mock, Apply(mock, Apply(mock, s, e), f), g)
    ensures Legal(mock, s, [e, f, g]) && Run(mock, s, [e, f, g]) == Apply(mock, Apply(mock, Apply(mock, s, e), f), g)
  {
    hide Enabled, Apply;
    TwoSteps(mock, Apply(mock, s, e), f, g);
    assert [e, f, g][1..] == [f, g];
  }

  // ---- One message ----

  /** What one message from the client adds to what each side is sent. */
  function ToUpstream(mock: bool, m: Message): seq<Message> {
    if mock && m.TextMessage? && Classify(m.text) != Forward then [] else [m]
  }

  function ToClient(mock: bool, m: Message): seq<Sent> {
    if mock && m.TextMessage? && Classify(m.text).Reply? then [Answered(Classify(m.text).text)] else []
  }

  function Next(m: Message): Half {
    if m.Close? then Flushing else Reading
  }

  /** The client loop, reading with the sink free, can read any message, pass it on or answer it, and go on. */
  lemma PassClient(mock: bool, s: State, m: Message) returns (es: seq<Event>)
    requires s.client.Reading? && s.lock.None?
    ensures Legal(mock, s, es)
    ensures Run(mock, s, es) ==
            s.(client := Next(m), fromClient := s.fromClient + [m],
               toUpstream := s.toUpstream + ToUpstream(mock, m), toClient := s.toClient + ToClient(mock, m))
  {
    hide Classify, Legal, Run;
    var read := Read(ClientSide, m);
    assert s.toUpstream + [] == s.toUpstream && s.toClient + [] == s.toClient;
    if mock && m.TextMessage? && Classify(m.text) == Silent {
      es := [read];
      OneStep(mock, s, read);
    } else if mock && m.TextMessage? && Classify(m.text).Reply? {
      es := [read, Lock(ClientSide), SendReply(true, true)];
      ThreeSteps(mock, s, read, Lock(ClientSide), SendReply(true, true));
    } else {
      es := [read, SendUpstream(true, true)];
      TwoSteps(mock, s, read, SendUpstream(true, true));
    }
  }

  /** The upstream loop can do the same. */
  lemma PassUpstream(mock: bool, s: State, m: Message) returns (es: seq<Event>)
    requires s.upstream.Reading? && s.lock.None?
    ensures Legal(mock, s, es)
    ensures Run(mock, s, es) ==
            s.(upstream := Next(m), fromUpstream := s.fromUpstream + [m], toClient := s.toClient + [Relayed(m)])
  {
    hide Legal, Run;
    var read := Read(UpstreamSide, m);
    if mock {
      es := [read, Lock(UpstreamSide), SendClient(true, true)];
      ThreeSteps(mock, s, read, Lock(UpstreamSide), SendClient(true, true));
    } else {
      es := [read, SendClient(true, true)];
      TwoSteps(mock, s, read, SendClient(true, true));
    }
  }

  // ---- Whole conversations ----

  /** What the two sides say, in the order in which it is read. */
  datatype Line = Line(side: Side, message: Message)

  /** A side says nothing after a close. */
  predicate ClosesEnd(script: seq<Line>) {
    forall i, j :: 0 <= i < j < |script| && script[i].side == script[j].side ==> !script[i].message.Close?
  }

  function Said(script: seq<Line>, side: Side): seq<Message>
    decreases |script|
  {
    if script == [] then []
    else
      var last := script[|script| - 1];
      Said(script[..|script| - 1], side) + if last.side == side then [last.message] else []
  }

  /** What upstream must have been sent at the end: what the client said and is not handled locally. */
  function DueUpstream(mock: bool, script: seq<Line>): seq<Message>
    decreases |script|
  {
    if script == [] then []
    else
      var last := script[|script| - 1];
      DueUpstream(mock, script[..|script| - 1])
      + if last.side == ClientSide then ToUpstream(mock, last.message) else []
  }

  /** And the client: everything upstream said and every reply, in the order of the conversation. */
  function DueClient(mock: bool, script: seq<Line>): seq<Sent>
    decreases |script|
  {
    if script == [] then []
    else
      var last := script[|script| - 1];
      DueClient(mock, script[..|script| - 1])
      + if last.side == ClientSide then ToClient(mock, last.message) else [Relayed(last.message)]
  }

  /** Where a loop stands after the conversation. */
  function After(script: seq<Line>, side: Side): Half
    decreases |script|
  {
    if script == [] then Reading
    else
      var last := script[|script| - 1];
      if last.side == side then Next(last.message) else After(script[..|script| - 1], side)
  }

  lemma {:induction false} AfterIsReading(script: seq<Line>, side: Side)
    requires forall k :: 0 <= k < |script| && script[k].side == side ==> !script[k].message.Close?
    ensures After(script, side) == Reading
    decreases |script|
  {
    if script != [] {
      AfterIsReading(script[..|script| - 1], side);
    }
  }

  /**
   Progress, for every conversation in which neither side speaks after its close, read in any order, with and without
   mocking: there is a run in which all of it is read, upstream is sent exactly the client's messages not handled
   locally, and the client is sent exactly the upstream's messages and the replies, nothing missing.
   */
  lemma {:induction false} ConversationPasses(mock: bool, script: seq<Line>) returns (es: seq<Event>)
    requires ClosesEnd(script)
    ensures Legal(mock, START, es)
    ensures Run(mock, START, es) ==
            State(After(script, ClientSide), After(script, UpstreamSide), None, Said(script, ClientSide),
                  Said(script, UpstreamSide), DueUpstream(mock, script), DueClient(mock, script))
    decreases |script|
  {
    hide Legal, Run, ToUpstream, ToClient;
    if script == [] {
      es := [];
      Nothing(mock);
    } else {
      var before, last := script[..|script| - 1], script[|script| - 1];
      var first := ConversationPasses(mock, before);
      var s := Run(mock, START, first);
      AfterIsReading(before, last.side);
      var rest: seq<Event>;
      if last.side == ClientSide {
        rest := PassClient(mock, s, last.message);
      } else {
        rest := PassUpstream(mock, s, last.message);
      }
      RunAppend(mock, START, first, rest);
      es := first + rest;
      assert Said(before, ClientSide) + [] == Said(before, ClientSide);
      assert Said(before, UpstreamSide) + [] == Said(before, UpstreamSide);
      assert DueUpstream(mock, before) + [] == DueUpstream(mock, before);
    }
  }

  lemma Nothing(mock: bool)
    ensures Legal(mock, START, []) && Run(mock, START, []) == START
  {
  }

  // ---- Nothing gets stuck halfway ----

  /** In every reachable state a loop that has something in hand can hand it over and go on. */
  lemma HandsOver(mock: bool, s: State, side: Side) returns (es: seq<Event>)
    requires Inv(mock, s) && (At(s, side).Holding? || At(s, side).Answering?)
    ensures Legal(mock, s, es) && !At(Run(mock, s, es), side).Holding? && !At(Run(mock, s, es), side).Answering?
    ensures !At(Run(mock, s, es), side).Finished?
    ensures s.client.Holding? && side == ClientSide ==>
              Run(mock, s, es).toUpstream == s.toUpstream + [s.client.message]
  {
    hide Legal, Run, Follows, UpToClose, NotHandled, Replies, AnsweredOnly, RelayedOnly, HasClose;
    if side == ClientSide && s.client.Holding? {
      es := [SendUpstream(true, true)];
      OneStep(mock, s, SendUpstream(true, true));
    } else if !mock || s.lock == Some(side) {
      var send := if side == ClientSide then SendReply(true, true) else SendClient(true, true);
      es := [send];
      OneStep(mock, s, send);
    } else {
      var first := FreesSink(mock, s, side);
      var t := Run(mock, s, first);
      var send := if side == ClientSide then SendReply(true, true) else SendClient(true, true);
      TwoSteps(mock, t, Lock(side), send);
      RunAppend(mock, s, first, [Lock(side), send]);
      es := first + [Lock(side), send];
    }
  }

  /** The other loop, if it holds the sink, can use it and let it go. */
  lemma FreesSink(mock: bool, s: State, side: Side) returns (es: seq<Event>)
    requires Inv(mock, s) && s.lock != Some(side)
    ensures Legal(mock, s, es)
    ensures Run(mock, s, es).lock.None? && At(Run(mock, s, es), side) == At(s, side)
  {
    hide Follows, UpToClose, NotHandled, Replies, AnsweredOnly, RelayedOnly, HasClose;
    match s.lock
    case None => es := [];
    case Some(ClientSide) =>
      es := [SendReply(true, true)];
      OneStep(mock, s, SendReply(true, true));
    case Some(UpstreamSide) =>
      es := [SendClient(true, true)];
      OneStep(mock, s, SendClient(true, true));
  }

  // ---- Why a direction ends ----

  /** A loop is finished only by the end of its stream, after a close, by a failed send, by cancellation or by drop. */
  predicate Ends(s: State, e: Event, side: Side) {
    || e == EndOfStream(side)
    || (e.Flush? && e.side == side && At(s, side).Flushing?)
    || (side == ClientSide && (e.SendUpstream? || e.SendReply?) && !e.ok)
    || (side == UpstreamSide && e.SendClient? && !e.ok)
    || (e == Cancel(side) && (s.client.Finished? || s.upstream.Finished?))
    || e == Drop
  }

  lemma StepEnds(mock: bool, s: State, e: Event, side: Side)
    requires Enabled(mock, s, e) && !At(s, side).Finished? && At(Apply(mock, s, e), side).Finished?
    ensures Ends(s, e, side)
  {
    hide Classify;
  }

  /** And it stops reading for a flush only by passing on a close. */
  lemma StepFlushes(mock: bool, s: State, e: Event, side: Side)
    requires Enabled(mock, s, e) && !At(s, side).Flushing? && At(Apply(mock, s, e), side).Flushing?
    ensures At(s, side).Holding? && At(s, side).message.Close?
  {
    hide Classify;
  }

  /** Over every run: a direction that is over has met one of these on the way. */
  lemma {:induction false} EndsForAReason(mock: bool, s: State, es: seq<Event>, side: Side) returns (k: nat)
    requires Legal(mock, s, es) && !At(s, side).Finished? && At(Run(mock, s, es), side).Finished?
    ensures k < |es| && Legal(mock, s, es[..k]) && Ends(Run(mock, s, es[..k]), es[k], side)
    decreases |es|
  {
    hide Enabled, Apply, Ends;
    if At(Apply(mock, s, es[0]), side).Finished? {
      StepEnds(mock, s, es[0], side);
      k := 0;
      assert es[..0] == [];
    } else {
      var j := EndsForAReason(mock, Apply(mock, s, es[0]), es[1..], side);
      k := j + 1;
      assert es[..k] == [es[0]] + es[1..][..j];
      assert es[..k][1..] == es[1..][..j];
    }
  }

  /** Once one direction is over the other can be cut off, so a broken peer keeps nothing alive. */
  lemma OtherCanEnd(mock: bool, s: State)
    requires s.client.Finished? || s.upstream.Finished?
    ensures Enabled(mock, s, Cancel(ClientSide)) && Apply(mock, s, Cancel(ClientSide)).client.Finished?
    ensures Enabled(mock, s, Cancel(UpstreamSide)) && Apply(mock, s, Cancel(UpstreamSide)).upstream.Finished?
  {
  }

  /** And each of these can happen: a stream may end between messages, a send may fail, the flush may bring anything. */
  lemma MayEnd(mock: bool, s: State, side: Side, taken: bool, extra: Option<Message>)
    ensures At(s, side).Reading? ==>
              Enabled(mock, s, EndOfStream(side)) && At(Apply(mock, s, EndOfStream(side)), side).Finished?
    ensures At(s, side).Flushing? ==>
              Enabled(mock, s, Flush(side, extra)) && At(Apply(mock, s, Flush(side, extra)), side).Finished?
    ensures s.client.Holding? ==>
              && Enabled(mock, s, SendUpstream(taken, false))
              && Apply(mock, s, SendUpstream(taken, false)).client ==
                 if s.client.message.Close? then Flushing else Finished
    ensures s.upstream.Holding? && (mock ==> s.lock == Some(UpstreamSide)) ==>
              && Enabled(mock, s, SendClient(taken, false))
              && Apply(mock, s, SendClient(taken, false)).upstream ==
                 if s.upstream.message.Close? then Flushing else Finished
    ensures s.client.Answering? && s.lock == Some(ClientSide) ==>
              && Enabled(mock, s, SendReply(taken, false)) && Apply(mock, s, SendReply(taken, false)).client.Finished?
    ensures Enabled(mock, s, Drop) && Apply(mock, s, Drop).client.Finished? && Apply(mock, s, Drop).upstream.Finished?
  {
  }
}
