/** Matching the execution layer's batch response to its three requests (`parse_el_batch` in `src/health.rs`). */
module ElBatch {
  import opened ElResponses
  import opened Wrappers
  import opened U64

  datatype DecodeError =
    | Malformed
    | UnexpectedId
    | MissingResponse(id: nat)
    | MissingResult

  datatype HealthError =
    | Timeout
    | Transport(text: string)
    | HttpStatus(code: nat)
    | Decode(reason: DecodeError)
    | Rpc(raw: string)

  /** One outcome for each signal of the batch. */
  datatype Signals = Signals(syncing: Result<ElSyncing, HealthError>, peers: Result<u64, HealthError>,
                             block: Result<ElBlock, HealthError>)

  function FromError(e: HealthError): Signals {
    Signals(Err(e), Err(e), Err(e))
  }

  // ---- The code's steps ----

  /** `usize::try_from(id)`, minus one without wrapping, below three. */
  function SlotOf(id: i64): Option<nat> {
    if id < 0 then None
    else if id == 0 then None
    else if id - 1 < 3 then Some((id - 1) as nat)
    else None
  }

  function RawOf(slot: Option<Response>, index: nat): Result<string, HealthError> {
    match slot
    case None => Err(Decode(MissingResponse(index + 1)))
    case Some(r) =>
      if r.failure.Some? then Err(Rpc(r.failure.value))
      else if r.payload.Some? then Ok(r.payload.value)
      else Err(Decode(MissingResult))
  }

  function Decoded<T>(raw: Result<string, HealthError>, read: string -> Option<T>): Result<T, HealthError> {
    match raw
    case Err(e) => Err(e)
    case Ok(text) =>
      match read(text)
      case Some(v) => Ok(v)
      case None => Err(Decode(Malformed))
  }

  // ---- What the batch means ----

  function Ids(rs: seq<Response>): (ids: seq<int>)
    ensures |ids| == |rs| && forall k :: 0 <= k < |rs| ==> ids[k] == rs[k].id as int
  {
    seq(|rs|, k requires 0 <= k < |rs| => rs[k].id as int)
  }

  /** The three responses answer requests 1, 2 and 3, in any order. */
  predicate Matched(rs: seq<Response>) {
    |rs| == 3 && multiset(Ids(rs)) == multiset{1, 2, 3}
  }

  /** What one response says, whatever its place and whatever the others say. */
  function Says<T>(r: Response, read: string -> Option<T>): Result<T, HealthError> {
    if r.failure.Some? then Err(Rpc(r.failure.value))
    else if r.payload.None? then Err(Decode(MissingResult))
    else
      match read(r.payload.value)
      case Some(v) => Ok(v)
      case None => Err(Decode(Malformed))
  }

  /** Each signal is what the response with its id says. */
  predicate Answers(rs: seq<Response>, s: Signals) {
    forall k :: 0 <= k < |rs| ==>
      && (rs[k].id == 1 ==> s.syncing == Says(rs[k], ReadSyncing))
      && (rs[k].id == 2 ==> s.peers == Says(rs[k], ReadPeers))
      && (rs[k].id == 3 ==> s.block == Says(rs[k], ReadBlock))
  }

  /** The latest of the first `i` responses with this id. */
  function Latest(rs: seq<Response>, i: nat, id: int): Option<Response>
    requires i <= |rs|
  {
    if i == 0 then None else if rs[i - 1].id as int == id then Some(rs[i - 1]) else Latest(rs, i - 1, id)
  }

  predicate DistinctIds(rs: seq<Response>, i: nat)
    requires i <= |rs|
  {
    (forall k :: 0 <= k < i ==> 1 <= rs[k].id <= 3) && forall j, k :: 0 <= j < k < i ==> rs[j].id != rs[k].id
  }

  /** The slots hold exactly the first `i` responses, each under its id; no id was seen twice. */
  predicate Filed(rs: seq<Response>, i: nat, slots: seq<Option<Response>>)
    requires i <= |rs|
  {
    DistinctIds(rs, i) && slots == [Latest(rs, i, 1), Latest(rs, i, 2), Latest(rs, i, 3)]
  }

  /** The whole parse as one function of the body: read three responses, then match them. */
  function BatchMeaning(body: string): Result<Signals, HealthError> {
    match ReadBatch(body)
    case None => Err(Decode(Malformed))
    case Some(rs) => if Matched(rs) then Ok(SignalsOf(rs)) else Err(Decode(UnexpectedId))
  }

  /** The signals of matched responses, found by id. */
  function SignalsOf(rs: seq<Response>): Signals
    requires |rs| == 3
  {
    SlotSignals([Latest(rs, 3, 1), Latest(rs, 3, 2), Latest(rs, 3, 3)])
  }

  /** The three readings of the filled slots. */
  function SlotSignals(slots: seq<Option<Response>>): Signals
    requires |slots| == 3
  {
    Signals(Decoded(RawOf(slots[0], 0), ReadSyncing), Decoded(RawOf(slots[1], 1), ReadPeers),
            Decoded(RawOf(slots[2], 2), ReadBlock))
  }

  /**
   Reads three responses, fills three slots from them, refusing an id out of range or seen before, and reads each
   slot. It succeeds exactly on three readable responses whose ids are a permutation of 1, 2 and 3.
   */
  method ParseElBatch(body: string) returns (r: Result<Signals, HealthError>)
    ensures r == BatchMeaning(body)
    ensures ReadBatch(body).None? ==> r == Err(Decode(Malformed))
    ensures ReadBatch(body).Some? && multiset(Ids(ReadBatch(body).value)) != multiset{1, 2, 3} ==>
              r == Err(Decode(UnexpectedId))
    ensures r.Ok? <==> ReadBatch(body).Some? && Matched(ReadBatch(body).value)
    ensures r.Ok? ==> Answers(ReadBatch(body).value, r.value)
  {
    hide Filed, Matched, Answers, RawOf, Decoded, Says, ReadBatch, Latest, ReadSyncing, ReadPeers, ReadBlock;
    var read := ReadBatch(body);
    if read.None? {
      return Err(Decode(Malformed));
    }
    var rs := read.value;
    ReadBatchCount(body);
    MatchedIds(rs);
    var slots := new Option<Response>[3](_ => None);
    NothingFiled(rs, slots[..]);
    for i := 0 to 3
      invariant Filed(rs, i, slots[..])
    {
      var index := SlotOf(rs[i].id);
      if index.None? {
        BadIdUnmatched(rs, i);
        return Err(Decode(UnexpectedId));
      }
      if slots[index.value].Some? {
        TakenSlot(rs, i, slots[..]);
        return Err(Decode(UnexpectedId));
      }
      FileOne(rs, i, slots[..]);
      slots[index.value] := Some(rs[i]);
    }
    AllSlotsFilled(rs, slots[..]);
    FilledAnswers(rs, slots[..]);
    r := Ok(SlotSignals(slots[..]));
  }

  lemma MatchedIds(rs: seq<Response>)
    requires |rs| == 3
    ensures Matched(rs) <==> multiset(Ids(rs)) == multiset{1, 2, 3}
  {
    hide Ids;
  }

  lemma NothingFiled(rs: seq<Response>, slots: seq<Option<Response>>)
    requires slots == [None, None, None]
    ensures Filed(rs, 0, slots)
  {
  }

  lemma {:induction false} LatestOrigin(rs: seq<Response>, i: nat, id: int) returns (k: nat)
    requires i <= |rs| && Latest(rs, i, id).Some?
    ensures k < i && rs[k] == Latest(rs, i, id).value && rs[k].id as int == id
  {
    if rs[i - 1].id as int == id {
      k := i - 1;
    } else {
      k := LatestOrigin(rs, i - 1, id);
    }
  }

  lemma {:induction false} LatestNone(rs: seq<Response>, i: nat, id: int)
    requires i <= |rs| && Latest(rs, i, id).None?
    ensures forall k :: 0 <= k < i ==> rs[k].id as int != id
  {
    if i > 0 {
      LatestNone(rs, i - 1, id);
    }
  }

  lemma {:induction false} LatestHas(rs: seq<Response>, i: nat, k: nat)
    requires k < i <= |rs| && forall j :: k < j < i ==> rs[j].id != rs[k].id
    ensures Latest(rs, i, rs[k].id as int) == Some(rs[k])
  {
    if k < i - 1 {
      assert rs[i - 1].id != rs[k].id;
      LatestHas(rs, i - 1, k);
    }
  }

  lemma TakenSlot(rs: seq<Response>, i: nat, slots: seq<Option<Response>>)
    requires i < |rs| == 3 && Filed(rs, i, slots) && 1 <= rs[i].id <= 3
    requires slots[rs[i].id as int - 1].Some?
    ensures !Matched(rs)
  {
    hide Matched, Latest;
    var k := LatestOrigin(rs, i, rs[i].id as int);
    RepeatUnmatched(rs, k, i);
  }

  lemma FileOne(rs: seq<Response>, i: nat, slots: seq<Option<Response>>)
    requires i < |rs| && Filed(rs, i, slots) && 1 <= rs[i].id <= 3
    requires slots[rs[i].id as int - 1].None?
    ensures Filed(rs, i + 1, slots[rs[i].id as int - 1 := Some(rs[i])])
  {
    LatestNone(rs, i, rs[i].id as int);
  }

  lemma BadIdUnmatched(rs: seq<Response>, i: nat)
    requires i < |rs| == 3 && !(1 <= rs[i].id <= 3)
    ensures !Matched(rs)
  {
    assert Ids(rs)[i] in multiset(Ids(rs));
  }

  lemma RepeatUnmatched(rs: seq<Response>, k: nat, i: nat)
    requires k < i < |rs| == 3 && rs[k].id == rs[i].id && 1 <= rs[i].id <= 3
    ensures !Matched(rs)
  {
    var ids := Ids(rs);
    var v := ids[i];
    assert ids == [ids[0], ids[1], ids[2]];
    assert multiset(ids)[v] >= 2;
    assert multiset{1, 2, 3}[v] == 1;
  }

  lemma DistinctMatched(rs: seq<Response>)
    requires |rs| == 3 && forall k :: 0 <= k < 3 ==> 1 <= rs[k].id <= 3
    requires forall i, j :: 0 <= i < j < 3 ==> rs[i].id != rs[j].id
    ensures Matched(rs)
  {
    var ids := Ids(rs);
    assert ids == [ids[0], ids[1], ids[2]];
    assert ids[0] != ids[1] && ids[0] != ids[2] && ids[1] != ids[2] by {
      assert rs[0].id != rs[1].id && rs[0].id != rs[2].id && rs[1].id != rs[2].id;
    }
  }

  /** Three responses in three different slots leave none empty, so no response can be missing. */
  lemma AllSlotsFilled(rs: seq<Response>, slots: seq<Option<Response>>)
    requires |rs| == 3 && Filed(rs, 3, slots)
    ensures Matched(rs)
    ensures forall j :: 0 <= j < 3 ==> slots[j].Some? && RawOf(slots[j], j) != Err(Decode(MissingResponse(j + 1)))
  {
    hide Matched, Latest;
    DistinctMatched(rs);
    LatestHas(rs, 3, 0);
    LatestHas(rs, 3, 1);
    LatestHas(rs, 3, 2);
  }

  lemma FilledAnswers(rs: seq<Response>, slots: seq<Option<Response>>)
    requires |rs| == 3 && Filed(rs, 3, slots)
    ensures SlotSignals(slots) == SignalsOf(rs) && Answers(rs, SlotSignals(slots))
  {
    hide Latest, ReadSyncing, ReadPeers, ReadBlock;
    LatestHas(rs, 3, 0);
    LatestHas(rs, 3, 1);
    LatestHas(rs, 3, 2);
  }

  // ---- Consequences ----

  /** The signals of matched responses are what the responses say. */
  lemma MeaningAnswers(rs: seq<Response>)
    requires |rs| == 3 && Matched(rs)
    ensures Answers(rs, SignalsOf(rs))
  {
    hide SignalsOf, Answers;
    MatchedFiled(rs);
    FilledAnswers(rs, [Latest(rs, 3, 1), Latest(rs, 3, 2), Latest(rs, 3, 3)]);
  }

  lemma MatchedFiled(rs: seq<Response>)
    requires |rs| == 3 && Matched(rs)
    ensures Filed(rs, 3, [Latest(rs, 3, 1), Latest(rs, 3, 2), Latest(rs, 3, 3)])
  {
    hide Matched, Latest;
    forall k | 0 <= k < 3
      ensures 1 <= rs[k].id <= 3
    {
      if !(1 <= rs[k].id <= 3) {
        BadIdUnmatched(rs, k);
      }
    }
    forall i, j | 0 <= i < j < 3
      ensures rs[i].id != rs[j].id
    {
      if rs[i].id == rs[j].id {
        RepeatUnmatched(rs, i, j);
      }
    }
  }

  lemma {:induction false} MatchedHas(rs: seq<Response>, id: i64) returns (k: nat)
    requires Matched(rs) && 1 <= id <= 3
    ensures k < |rs| && rs[k].id == id
  {
    assert id as int in multiset(Ids(rs));
    assert id as int in Ids(rs);
    k :| k < |Ids(rs)| && Ids(rs)[k] == id as int;
  }

  /** A matched batch has one meaning. */
  lemma AnswersUnique(rs: seq<Response>, s: Signals, t: Signals)
    requires Matched(rs) && Answers(rs, s) && Answers(rs, t)
    ensures s == t
  {
    var i := MatchedHas(rs, 1);
    var j := MatchedHas(rs, 2);
    var k := MatchedHas(rs, 3);
  }

  /** The order of the responses does not matter. */
  lemma OrderIrrelevant(rs: seq<Response>, ts: seq<Response>, s: Signals)
    requires multiset(rs) == multiset(ts)
    ensures Matched(rs) <==> Matched(ts)
    ensures Answers(rs, s) <==> Answers(ts, s)
  {
    hide Answers, Ids;
    SameIds(rs, ts);
    SameAnswers(rs, ts, s);
    SameAnswers(ts, rs, s);
  }

  lemma SameAnswers(rs: seq<Response>, ts: seq<Response>, s: Signals)
    requires multiset(rs) == multiset(ts)
    ensures Answers(ts, s) ==> Answers(rs, s)
  {
    hide Says;
    forall k | 0 <= k < |rs|
      ensures rs[k] in ts
    {
      assert rs[k] in multiset(ts);
    }
  }

  function Without<T>(ts: seq<T>, j: nat): seq<T>
    requires j < |ts|
  {
    ts[..j] + ts[j + 1..]
  }

  lemma WithoutOne<T>(ts: seq<T>, j: nat)
    requires j < |ts|
    ensures |Without(ts, j)| == |ts| - 1 && multiset(ts) == multiset{ts[j]} + multiset(Without(ts, j))
  {
    assert ts == ts[..j] + [ts[j]] + ts[j + 1..];
  }

  lemma IdsWithout(rs: seq<Response>, j: nat)
    requires j < |rs|
    ensures Ids(Without(rs, j)) == Without(Ids(rs), j)
  {
  }

  lemma {:induction false} SameIds(rs: seq<Response>, ts: seq<Response>)
    requires multiset(rs) == multiset(ts)
    ensures |rs| == |ts| && multiset(Ids(rs)) == multiset(Ids(ts))
    decreases |rs|
  {
    hide Ids, Without;
    assert |multiset(rs)| == |rs| && |multiset(ts)| == |ts|;
    if rs != [] {
      assert rs[0] in multiset(ts);
      var j :| 0 <= j < |ts| && ts[j] == rs[0];
      WithoutOne(rs, 0);
      WithoutOne(ts, j);
      assert multiset(Without(rs, 0)) == multiset(rs) - multiset{rs[0]};
      assert multiset(Without(ts, j)) == multiset(ts) - multiset{ts[j]};
      SameIds(Without(rs, 0), Without(ts, j));
      IdsWithout(rs, 0);
      IdsWithout(ts, j);
      WithoutOne(Ids(rs), 0);
      WithoutOne(Ids(ts), j);
    }
  }

  /** Whatever one response says, a failure included, the other two signals stay as they were. */
  lemma SignalsIndependent(rs: seq<Response>, k: nat, r: Response, s: Signals, t: Signals)
    requires Matched(rs) && k < 3 && r.id == rs[k].id
    requires Answers(rs, s) && Answers(rs[k := r], t)
    ensures Matched(rs[k := r])
    ensures r.id != 1 ==> s.syncing == t.syncing
    ensures r.id != 2 ==> s.peers == t.peers
    ensures r.id != 3 ==> s.block == t.block
  {
    assert Ids(rs[k := r]) == Ids(rs);
    var ts := rs[k := r];
    var i1 := MatchedHas(ts, 1);
    var i2 := MatchedHas(ts, 2);
    var i3 := MatchedHas(ts, 3);
    assert i1 != k ==> ts[i1] == rs[i1];
    assert i2 != k ==> ts[i2] == rs[i2];
    assert i3 != k ==> ts[i3] == rs[i3];
  }
}
