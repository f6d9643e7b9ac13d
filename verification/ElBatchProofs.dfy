/** A printed batch of answers, in any order, parses back to the three values it carries. */
module ElBatchProofs {
  import opened Wrappers
  import opened U64
  import opened Json
  import opened JsonObject
  import opened JsonString
  import opened ElResponses
  import opened ElBatch

  // ---- One result ----

  lemma SyncingReadsBack(s: ElSyncing)
    ensures WellFormed(SyncingTree(s)) && Ascii(Text(SyncingTree(s))) && !SyncingTree(s).Null?
    ensures ReadSyncing(Text(SyncingTree(s))) == Some(s)
  {
    hide ParseDocument, ReadPair, PairTree, Text, WellFormed;
    WordsReadBack();
    match s
    case Synced(_) =>
    case Syncing(a, b) =>
      PairReadsBack("currentBlock", a, "highestBlock", b);
      PairIsObject("currentBlock", a, "highestBlock", b);
      TightDocument(SyncingTree(s));
  }

  lemma WordsReadBack()
    ensures WellFormed(True) && Ascii(Text(True)) && ParseDocument(Text(True)) == Some(True)
    ensures WellFormed(False) && Ascii(Text(False)) && ParseDocument(Text(False)) == Some(False)
  {
    hide ParseDocument;
    TightDocument(True);
    TightDocument(False);
  }

  lemma PairIsObject(first: string, a: u64, second: string, b: u64)
    ensures PairTree(first, a, second, b).Object?
  {
  }

  lemma PeersReadBack(n: u64)
    ensures WellFormed(QuantityTree(n)) && Ascii(Text(QuantityTree(n))) && !QuantityTree(n).Null?
    ensures ReadPeers(Text(QuantityTree(n))) == Some(n)
  {
    hide ParseDocument, ReadQuantity, Text, WellFormed, Spell;
    QuantityReadsBack(n);
    TightDocument(QuantityTree(n));
  }

  lemma BlockReadsBack(b: ElBlock)
    ensures WellFormed(BlockTree(b)) && Ascii(Text(BlockTree(b))) && !BlockTree(b).Null?
    ensures ReadBlock(Text(BlockTree(b))) == Some(b)
  {
    hide ParseDocument, ReadPair, PairTree, Text, WellFormed;
    PairReadsBack("number", b.number, "timestamp", b.timestamp);
    PairIsObject("number", b.number, "timestamp", b.timestamp);
    TightDocument(BlockTree(b));
  }

  // ---- One response ----

  function IdTree(id: nat): Value
    requires 1 <= id <= 3
  {
    Number(Num(false, [('0' as int + id) as char], None, None))
  }

  function ResponseTree(id: nat, result: Value): Value
    requires 1 <= id <= 3
  {
    Object(MoreMembers(TightKey("id"), IdTree(id), "", LastMember(TightKey("result"), result, "")))
  }

  lemma IdReadsBack(id: nat)
    requires 1 <= id <= 3
    ensures WellFormed(IdTree(id)) && ReadI64(IdTree(id).num) == Some(id as i64)
  {
    var ds := IdTree(id).num.whole;
    assert ds[..0] == "";
    assert Positional(ds, 10) == id;
  }

  lemma ResponseReadsBack(id: nat, result: Value)
    requires 1 <= id <= 3 && WellFormed(result) && Ascii(Text(result)) && !result.Null?
    ensures WellFormed(ResponseTree(id, result))
    ensures ReadResponse(ResponseTree(id, result)) == Some(Response(id as i64, Some(Text(result)), None))
  {
    hide ReadI64, KeysReadable, MembersOk, MembersText, Lookup, TightKey, Text, WellFormed, ValidUtf8;
    var last := LastMember(TightKey("result"), result, "");
    var ms := MoreMembers(TightKey("id"), IdTree(id), "", last);
    IdReadsBack(id);
    LastTight("result", result);
    TightMember("id", IdTree(id), last);
    AsciiIsUtf8(Text(result));
    ObjectShape(ms);
    assert Lookup(ms, "id") == [IdTree(id)] + [];
    assert Lookup(ms, "result") == [result];
    assert Lookup(ms, "error") == [];
  }

  // ---- The batch ----

  function ArrayTree(a: Value, b: Value, c: Value): Value {
    Array(MoreItems("", a, "", MoreItems("", b, "", LastItem("", c, ""))))
  }

  lemma ArrayShape(a: Value, b: Value, c: Value)
    requires WellFormed(a) && WellFormed(b) && WellFormed(c)
    ensures WellFormed(ArrayTree(a, b, c)) && Elements(ArrayTree(a, b, c).items) == [a, b, c]
  {
    var last := LastItem("", c, "");
    var middle := MoreItems("", b, "", last);
    assert ItemsOk(last) && ItemsOk(middle);
    assert Elements(last) == [c] && Elements(middle) == [b] + [c];
  }

  lemma BatchReadsBack(a: Value, b: Value, c: Value)
    requires WellFormed(a) && WellFormed(b) && WellFormed(c)
    ensures ReadBatch(Text(ArrayTree(a, b, c))) == ReadThree([a, b, c])
  {
    hide ParseDocument, WellFormed, Text, Elements, ReadThree;
    ArrayShape(a, b, c);
    TightDocument(ArrayTree(a, b, c));
  }

  /** The result that answers request `id`. */
  function ResultTree(id: nat, s: ElSyncing, n: u64, b: ElBlock): Value {
    if id == 1 then SyncingTree(s) else if id == 2 then QuantityTree(n) else BlockTree(b)
  }

  predicate IsOrder(order: seq<nat>) {
    |order| == 3 && multiset(order) == multiset{1, 2, 3}
  }

  lemma OrderIds(order: seq<nat>)
    requires IsOrder(order)
    ensures |order| == 3 && forall k :: 0 <= k < 3 ==> 1 <= order[k] <= 3
  {
    forall k | 0 <= k < 3
      ensures 1 <= order[k] <= 3
    {
      assert order[k] in multiset(order);
    }
  }

  function BatchTree(order: seq<nat>, s: ElSyncing, n: u64, b: ElBlock): Value
    requires |order| == 3 && forall k :: 0 <= k < 3 ==> 1 <= order[k] <= 3
  {
    ArrayTree(ResponseTree(order[0], ResultTree(order[0], s, n, b)),
              ResponseTree(order[1], ResultTree(order[1], s, n, b)),
              ResponseTree(order[2], ResultTree(order[2], s, n, b)))
  }

  /** The response with this id, as it is read. */
  function Served(id: nat, s: ElSyncing, n: u64, b: ElBlock): Response
    requires 1 <= id <= 3
  {
    Response(id as i64, Some(Text(ResultTree(id, s, n, b))), None)
  }

  lemma ServedReadsBack(id: nat, s: ElSyncing, n: u64, b: ElBlock)
    requires 1 <= id <= 3
    ensures WellFormed(ResponseTree(id, ResultTree(id, s, n, b)))
    ensures ReadResponse(ResponseTree(id, ResultTree(id, s, n, b))) == Some(Served(id, s, n, b))
  {
    hide Text, WellFormed, SyncingTree, QuantityTree, BlockTree, ResponseTree, ReadResponse, ReadSyncing, ReadPeers,
         ReadBlock;
    SyncingReadsBack(s);
    PeersReadBack(n);
    BlockReadsBack(b);
    ResponseReadsBack(id, ResultTree(id, s, n, b));
  }

  /** What a served response says of the signal it answers. */
  lemma ServedSays(id: nat, s: ElSyncing, n: u64, b: ElBlock)
    requires 1 <= id <= 3
    ensures id == 1 ==> Says(Served(id, s, n, b), ReadSyncing) == Ok(s)
    ensures id == 2 ==> Says(Served(id, s, n, b), ReadPeers) == Ok(n)
    ensures id == 3 ==> Says(Served(id, s, n, b), ReadBlock) == Ok(b)
  {
    hide Text, SyncingTree, QuantityTree, BlockTree, ReadSyncing, ReadPeers, ReadBlock;
    SyncingReadsBack(s);
    PeersReadBack(n);
    BlockReadsBack(b);
  }

  lemma OrderDistinct(order: seq<nat>)
    requires IsOrder(order)
    ensures |order| == 3 && order[0] != order[1] && order[0] != order[2] && order[1] != order[2]
  {
    assert order == [order[0], order[1], order[2]];
    var m := multiset{1, 2, 3};
    assert multiset(order) == multiset{order[0], order[1], order[2]};
    assert m[order[0]] == 1 && m[order[1]] == 1 && m[order[2]] == 1 by {
      OrderIds(order);
    }
  }

  lemma ServedMatched(order: seq<nat>, rs: seq<Response>)
    requires IsOrder(order) && |rs| == |order| == 3
    requires forall k :: 0 <= k < 3 ==> 1 <= order[k] <= 3 && rs[k].id as int == order[k]
    ensures Matched(rs)
  {
    hide Matched, IsOrder;
    OrderDistinct(order);
    assert rs[0].id != rs[1].id && rs[0].id != rs[2].id && rs[1].id != rs[2].id;
    DistinctMatched(rs);
  }

  lemma ServedAnswers(order: seq<nat>, s: ElSyncing, n: u64, b: ElBlock, rs: seq<Response>)
    requires IsOrder(order) && |rs| == |order| == 3
    requires forall k :: 0 <= k < 3 ==> 1 <= order[k] <= 3 && rs[k] == Served(order[k], s, n, b)
    ensures Matched(rs) && Answers(rs, Signals(Ok(s), Ok(n), Ok(b)))
  {
    hide Says, Served, Matched, IsOrder, ReadSyncing, ReadPeers, ReadBlock;
    forall k | 0 <= k < 3
      ensures rs[k].id as int == order[k]
      ensures order[k] == 1 ==> Says(rs[k], ReadSyncing) == Ok(s)
      ensures order[k] == 2 ==> Says(rs[k], ReadPeers) == Ok(n)
      ensures order[k] == 3 ==> Says(rs[k], ReadBlock) == Ok(b)
    {
      ServedId(order[k], s, n, b);
      ServedSays(order[k], s, n, b);
    }
    ServedMatched(order, rs);
  }

  lemma ServedId(id: nat, s: ElSyncing, n: u64, b: ElBlock)
    requires 1 <= id <= 3
    ensures Served(id, s, n, b).id as int == id
  {
    hide Text, ResultTree;
  }

  /**
   Round trip, for every sync state, peer count and block and for every order of the three answers: the printed batch
   parses to exactly these values.
   */
  lemma BatchRoundTrip(order: seq<nat>, s: ElSyncing, n: u64, b: ElBlock)
    requires IsOrder(order)
    ensures forall k :: 0 <= k < 3 ==> 1 <= order[k] <= 3
    ensures BatchMeaning(Text(BatchTree(order, s, n, b))) == Ok(Signals(Ok(s), Ok(n), Ok(b)))
  {
    hide Text, ResponseTree, ReadResponse, ReadBatch, Matched, Answers, Served, SignalsOf, ArrayTree, ResultTree,
         IsOrder;
    OrderIds(order);
    ServedReadsBack(order[0], s, n, b);
    ServedReadsBack(order[1], s, n, b);
    ServedReadsBack(order[2], s, n, b);
    BatchReadsBack(ResponseTree(order[0], ResultTree(order[0], s, n, b)),
                   ResponseTree(order[1], ResultTree(order[1], s, n, b)),
                   ResponseTree(order[2], ResultTree(order[2], s, n, b)));
    var rs := [Served(order[0], s, n, b), Served(order[1], s, n, b), Served(order[2], s, n, b)];
    ServedAnswers(order, s, n, b, rs);
    MeaningAnswers(rs);
    AnswersUnique(rs, SignalsOf(rs), Signals(Ok(s), Ok(n), Ok(b)));
  }

  // ---- The order of the responses never matters ----

  /** Two bodies whose responses are permutations of each other mean the same, failures included. */
  lemma SameMeaning(body: string, other: string)
    requires ReadBatch(body).Some? && ReadBatch(other).Some?
    requires multiset(ReadBatch(body).value) == multiset(ReadBatch(other).value)
    ensures BatchMeaning(body) == BatchMeaning(other)
  {
    hide ReadBatch, Matched, Answers, SignalsOf;
    var rs, ts := ReadBatch(body).value, ReadBatch(other).value;
    ReadBatchCount(body);
    ReadBatchCount(other);
    if Matched(rs) {
      MeaningAnswers(rs);
      OrderIrrelevant(rs, ts, SignalsOf(rs));
      MeaningAnswers(ts);
      AnswersUnique(ts, SignalsOf(rs), SignalsOf(ts));
    } else {
      OrderIrrelevant(rs, ts, FromError(Timeout));
    }
  }
}
