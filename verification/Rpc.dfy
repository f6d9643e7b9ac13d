/**
 What `src/rpc.rs` promises, said of a parsed document: which requests are answered locally, and with what.
 The byte-level reader that has to agree with this is in RpcStream.dfy.
 */
module Rpc {
  import opened Wrappers
  import opened Json
  import opened JsonObject
  import opened JsonString

  datatype MockResult = Forward | Silent | Reply(text: string)

  // ---- One request ----

  /** JSON-RPC 2.0, section 4: an id is a string, a number or null. It is kept as text, so it must be UTF-8. */
  predicate IsId(v: Value) {
    (v.Str? || v.Number? || v.Null?) && ValidUtf8(Text(v))
  }

  /** An `eth_syncing` call: version and method once, at most empty params, at most one id. */
  predicate Local(v: Value) {
    && v.Object?
    && KeysReadable(v.members)
    && |Lookup(v.members, "jsonrpc")| == 1 && IsString(Lookup(v.members, "jsonrpc")[0], "2.0")
    && |Lookup(v.members, "method")| == 1 && IsString(Lookup(v.members, "method")[0], "eth_syncing")
    && |Lookup(v.members, "params")| <= 1
    && (forall p :: p in Lookup(v.members, "params") ==> p.EmptyArray?)
    && |Lookup(v.members, "id")| <= 1
    && (forall d :: d in Lookup(v.members, "id") ==> IsId(d))
  }

  /** The raw text of the id; a request without one is a notification. */
  function IdOf(v: Value): Option<string>
    requires Local(v)
  {
    var ids := Lookup(v.members, "id");
    if ids == [] then None else Some(Text(ids[0]))
  }

  // ---- Replies ----

  const REPLY_PREFIX := "{\"jsonrpc\":\"2.0\",\"id\":"
  const REPLY_SUFFIX := ",\"result\":false}"

  function Answer(id: string): string {
    REPLY_PREFIX + id + REPLY_SUFFIX
  }

  /** The answers to `ids`, each preceded by an opening bracket (the first) or a comma. */
  function OpenBatch(ids: seq<string>): string {
    if ids == [] then ""
    else OpenBatch(ids[..|ids| - 1]) + [if |ids| == 1 then '[' else ','] + Answer(ids[|ids| - 1])
  }

  // ---- Whole bodies ----

  predicate AllLocal(vs: seq<Value>) {
    forall k :: 0 <= k < |vs| ==> Local(vs[k])
  }

  /** The ids of the requests that carry one, in request order. */
  function Ids(vs: seq<Value>): seq<string>
    requires AllLocal(vs)
  {
    if vs == [] then []
    else
      var rest := Ids(vs[1..]);
      match IdOf(vs[0]) case None => rest case Some(id) => [id] + rest
  }

  /** All or nothing: one element that is not local sends the whole batch upstream. */
  function BatchOutcome(vs: seq<Value>): MockResult {
    if vs == [] || !AllLocal(vs) then Forward
    else if Ids(vs) == [] then Silent
    else Reply(OpenBatch(Ids(vs)) + "]")
  }

  function Outcome(v: Value): MockResult {
    if v.Array? then BatchOutcome(Elements(v.items))
    else if !Local(v) then Forward
    else match IdOf(v) case None => Silent case Some(id) => Reply(Answer(id))
  }

  function Classify(body: string): MockResult {
    match ParseDocument(body) case None => Forward case Some(v) => Outcome(v)
  }
}
