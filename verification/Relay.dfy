/**
 The WebSocket relay (`bridge_ws`, `forward` and `drain_pair` in `src/websocket.rs`): two loops that take turns in
 any order and, when mocking, share the client sink under a mutex. The state carries the history of both sides.
 */
module Relay {
  import opened Wrappers
  import opened Rpc

  /** A close carries its frame, code and reason, if it has one. */
  datatype Message = TextMessage(text: string) | Close(frame: Option<string>) | Other(payload: string)

  /** What the client is sent: a relayed message or a locally made reply. */
  datatype Sent = Relayed(message: Message) | Answered(text: string)

  /** Where one of the two loops stands. */
  datatype Half =
    | Reading
    | Holding(message: Message)  // read, not yet handed to the other side
    | Answering(reply: string)   // client side only: a reply waits for the client sink
    | Flushing                   // a close was passed on; one more read flushes its acknowledgement
    | Finished

  datatype Side = ClientSide | UpstreamSide

  datatype State = State(
    client: Half, upstream: Half, lock: Option<Side>,
    fromClient: seq<Message>, fromUpstream: seq<Message>,
    toUpstream: seq<Message>, toClient: seq<Sent>)

  const START := State(Reading, Reading, None, [], [], [], [])

  /** `delivered`: the sink took the message; `ok`: it reported success, which it does only after taking it. */
  datatype Event =
    | Read(side: Side, message: Message)
    | EndOfStream(side: Side)
    | Lock(side: Side)
    | SendUpstream(delivered: bool, ok: bool)
    | SendClient(delivered: bool, ok: bool)
    | SendReply(delivered: bool, ok: bool)
    | Flush(side: Side, extra: Option<Message>)
    | Cancel(side: Side)
    | Drop

  function At(s: State, side: Side): Half {
    if side == ClientSide then s.client else s.upstream
  }

  function Moved(s: State, side: Side, h: Half): State {
    if side == ClientSide then s.(client := h) else s.(upstream := h)
  }

  function Heard(s: State, side: Side, m: Message): State {
    if side == ClientSide then s.(fromClient := s.fromClient + [m]) else s.(fromUpstream := s.fromUpstream + [m])
  }

  /** What the client loop does with a message it has read. */
  function Dispatch(mock: bool, m: Message): Half {
    if mock && m.TextMessage? then
      match Classify(m.text) case Silent => Reading case Reply(r) => Answering(r) case Forward => Holding(m)
    else Holding(m)
  }

  function AfterSend(m: Message, ok: bool): Half {
    if m.Close? then Flushing else if ok then Reading else Finished
  }

  /** `mock` is fixed for the life of a relay; without it there is no mutex. */
  predicate Enabled(mock: bool, s: State, e: Event) {
    match e
    case Read(side, _) => At(s, side).Reading?
    case EndOfStream(side) => At(s, side).Reading?
    case Lock(side) => mock && s.lock.None? && if side == ClientSide then s.client.Answering? else s.upstream.Holding?
    case SendUpstream(delivered, ok) => s.client.Holding? && (ok ==> delivered)
    case SendClient(delivered, ok) =>
      s.upstream.Holding? && (mock ==> s.lock == Some(UpstreamSide)) && (ok ==> delivered)
    case SendReply(delivered, ok) => s.client.Answering? && s.lock == Some(ClientSide) && (ok ==> delivered)
    case Flush(side, _) => At(s, side).Flushing?
    case Cancel(side) => s.client.Finished? || s.upstream.Finished?
    case Drop => true
  }

  function Apply(mock: bool, s: State, e: Event): State
    requires Enabled(mock, s, e)
  {
    match e
    case Read(ClientSide, m) => Heard(s, ClientSide, m).(client := Dispatch(mock, m))
    case Read(UpstreamSide, m) => Heard(s, UpstreamSide, m).(upstream := Holding(m))
    case EndOfStream(side) => Moved(s, side, Finished)
    case Lock(side) => s.(lock := Some(side))
    case SendUpstream(delivered, ok) =>
      s.(client := AfterSend(s.client.message, ok),
         toUpstream := if delivered then s.toUpstream + [s.client.message] else s.toUpstream)
    case SendClient(delivered, ok) =>
      s.(upstream := AfterSend(s.upstream.message, ok), lock := None,
         toClient := if delivered then s.toClient + [Relayed(s.upstream.message)] else s.toClient)
    case SendReply(delivered, ok) =>
      s.(client := if ok then Reading else Finished, lock := None,
         toClient := if delivered then s.toClient + [Answered(s.client.reply)] else s.toClient)
    case Flush(side, extra) =>
      Moved(if extra.Some? then Heard(s, side, extra.value) else s, side, Finished)
    case Cancel(side) => Moved(s, side, Finished).(lock := if s.lock == Some(side) then None else s.lock)
    case Drop => s.(client := Finished, upstream := Finished, lock := None)
  }

  predicate Legal(mock: bool, s: State, es: seq<Event>)
    decreases |es|
  {
    es == [] || (Enabled(mock, s, es[0]) && Legal(mock, Apply(mock, s, es[0]), es[1..]))
  }

  function Run(mock: bool, s: State, es: seq<Event>): State
    requires Legal(mock, s, es)
    decreases |es|
  {
    if es == [] then s else Run(mock, Apply(mock, s, es[0]), es[1..])
  }
}
