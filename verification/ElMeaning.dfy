/** What is read of the execution layer's batch, written out member by member; other members never matter. */
module ElMeaning {
  import opened Wrappers
  import opened Strings
  import opened U64
  import opened Json
  import opened JsonObject
  import opened JsonString
  import opened Quantity
  import opened ElResponses
  import opened ElBatch
  import opened ElBatchProofs

  // ---- Members with other names ----

  /** The same members with one more at a place counted from the front, or at the end. */
  function Inserted(ms: Members, at: nat, key: Key, value: Value, after: string): Members {
    if at == 0 then MoreMembers(key, value, after, ms)
    else
      match ms
      case LastMember(k, v, a) => MoreMembers(k, v, a, LastMember(key, value, after))
      case MoreMembers(k, v, a, rest) => MoreMembers(k, v, a, Inserted(rest, at - 1, key, value, after))
  }

  lemma {:induction false} InsertedLookup(ms: Members, at: nat, key: Key, value: Value, after: string, name: string)
    requires KeyName(key).Some?
    ensures KeyName(key) != Some(name) ==> Lookup(Inserted(ms, at, key, value, after), name) == Lookup(ms, name)
    ensures KeysReadable(Inserted(ms, at, key, value, after)) <==> KeysReadable(ms)
    decreases ms
  {
    hide KeyName;
    if at == 0 {
      assert [] + Lookup(ms, name) == Lookup(ms, name);
    } else if ms.MoreMembers? {
      InsertedLookup(ms.rest, at - 1, key, value, after, name);
    }
  }

  /** Two objects a reader of these names cannot tell apart, whatever else they hold. */
  ghost predicate AgreeOn(ms: Members, ns: Members, names: set<string>) {
    (KeysReadable(ms) <==> KeysReadable(ns)) && forall n :: n in names ==> Lookup(ms, n) == Lookup(ns, n)
  }

  /** Only the id, the result and the error of a response are looked at. */
  lemma OnlyThreeMembersMatter(ms: Members, ns: Members)
    requires AgreeOn(ms, ns, {"id", "result", "error"})
    ensures ReadResponse(Object(ms)) == ReadResponse(Object(ns))
  {
    hide KeysReadable, Lookup, ReadI64, ValidUtf8, Text;
    assert Lookup(ms, "id") == Lookup(ns, "id") && Lookup(ms, "result") == Lookup(ns, "result");
    assert Lookup(ms, "error") == Lookup(ns, "error");
  }

  /** Any other member, with any value and at any place, changes nothing; so any number of them does not either. */
  lemma ExtraMemberIgnored(ms: Members, at: nat, key: Key, value: Value, after: string)
    requires KeyName(key).Some? && KeyName(key).value !in {"id", "result", "error"}
    ensures ReadResponse(Object(Inserted(ms, at, key, value, after))) == ReadResponse(Object(ms))
  {
    hide KeysReadable, Lookup, Inserted, ReadResponse, KeyName;
    InsertedLookup(ms, at, key, value, after, "id");
    InsertedLookup(ms, at, key, value, after, "result");
    InsertedLookup(ms, at, key, value, after, "error");
    OnlyThreeMembersMatter(Inserted(ms, at, key, value, after), ms);
  }

  lemma OnlyTwoMembersMatter(ms: Members, ns: Members, first: string, second: string)
    requires AgreeOn(ms, ns, {first, second})
    ensures ReadPair(Object(ms), first, second) == ReadPair(Object(ns), first, second)
  {
    hide KeysReadable, Lookup, ReadQuantity;
    assert Lookup(ms, first) == Lookup(ns, first) && Lookup(ms, second) == Lookup(ns, second);
  }

  /** Nor does another member of a block or a progress object. */
  lemma ExtraMemberIgnoredInPair(ms: Members, at: nat, key: Key, value: Value, after: string, first: string,
                                 second: string)
    requires KeyName(key).Some? && KeyName(key).value != first && KeyName(key).value != second
    ensures ReadPair(Object(Inserted(ms, at, key, value, after)), first, second) == ReadPair(Object(ms), first, second)
  {
    hide KeysReadable, Lookup, Inserted, ReadPair, KeyName;
    InsertedLookup(ms, at, key, value, after, first);
    InsertedLookup(ms, at, key, value, after, second);
    OnlyTwoMembersMatter(Inserted(ms, at, key, value, after), ms, first, second);
  }

  /** An explicit null is as good as a missing result or error. */
  lemma NullIsMissing(ms: Members, name: string)
    requires Lookup(ms, name) == [] || (|Lookup(ms, name)| == 1 && Lookup(ms, name)[0] == Null)
    ensures OptionalRaw(ms, name) == Some(None)
  {
  }

  // ---- Results, exactly ----

  /** A quantity string: 0x and the shortest hexadecimal digits of the number, in any letter case. */
  ghost predicate IsQuantity(v: Value, n: u64) {
    v.Str? && exists t: string ::
      && StrValue(v.chars) == Some(t) && |t| >= 2 && t[..2] == "0x"
      && HexDigits(t[2..]) && Lower(t[2..]) == Hex(n as nat)
  }

  lemma QuantityIff(v: Value, n: u64)
    ensures ReadQuantity(v) == Some(n) <==> IsQuantity(v, n)
  {
    hide StrValue, HexToU64, HexDigits, Hex;
    if v.Str? && StrValue(v.chars).Some? {
      LetterCaseIff(StrValue(v.chars).value, n);
    }
  }

  /** An object with one member of each name, both quantities. */
  ghost predicate IsPair(v: Value, first: string, a: u64, second: string, b: u64) {
    && v.Object? && KeysReadable(v.members)
    && (exists p :: Lookup(v.members, first) == [p] && IsQuantity(p, a))
    && (exists q :: Lookup(v.members, second) == [q] && IsQuantity(q, b))
  }

  lemma QuantityOfIff(ms: Members, name: string, n: u64)
    ensures QuantityOf(ms, name) == Some(n) <==> exists p :: Lookup(ms, name) == [p] && IsQuantity(p, n)
  {
    hide Lookup, ReadQuantity, IsQuantity;
    var vs := Lookup(ms, name);
    if |vs| == 1 {
      assert vs == [vs[0]];
      QuantityIff(vs[0], n);
    }
  }

  lemma PairIff(v: Value, first: string, a: u64, second: string, b: u64)
    ensures ReadPair(v, first, second) == Some((a, b)) <==> IsPair(v, first, a, second, b)
  {
    hide Lookup, KeysReadable, QuantityOf, IsQuantity;
    if v.Object? {
      QuantityOfIff(v.members, first, a);
      QuantityOfIff(v.members, second, b);
    }
  }

  ghost predicate IsSyncing(v: Value, s: ElSyncing) {
    match s
    case Synced(flag) => v == if flag then True else False
    case Syncing(a, b) => IsPair(v, "currentBlock", a, "highestBlock", b)
  }

  /** The sync state read from a result is the one it states, a progress object with any other members included. */
  lemma SyncingIff(v: Value, s: ElSyncing)
    requires WellFormed(v)
    ensures ReadSyncing(Text(v)) == Some(s) <==> IsSyncing(v, s)
  {
    hide ParseDocument, ReadPair, IsPair, Text, WellFormed;
    TightDocument(v);
    if s.Syncing? {
      PairIff(v, "currentBlock", s.current, "highestBlock", s.highest);
      WordsAreNoPairs(v);
    }
    var p := ReadPair(v, "currentBlock", "highestBlock");
    if p.Some? {
      WordsAreNoPairs(v);
    }
  }

  lemma WordsAreNoPairs(v: Value)
    ensures v == True || v == False ==> ReadPair(v, "currentBlock", "highestBlock") == None
    ensures v == True || v == False ==> forall a, b :: !IsPair(v, "currentBlock", a, "highestBlock", b)
  {
    hide IsQuantity;
  }

  lemma PeersIff(v: Value, n: u64)
    requires WellFormed(v)
    ensures ReadPeers(Text(v)) == Some(n) <==> IsQuantity(v, n)
  {
    hide ParseDocument, ReadQuantity, IsQuantity, Text, WellFormed;
    TightDocument(v);
    QuantityIff(v, n);
  }

  lemma BlockIff(v: Value, b: ElBlock)
    requires WellFormed(v)
    ensures ReadBlock(Text(v)) == Some(b) <==> IsPair(v, "number", b.number, "timestamp", b.timestamp)
  {
    hide ParseDocument, ReadPair, IsPair, Text, WellFormed;
    TightDocument(v);
    PairIff(v, "number", b.number, "timestamp", b.timestamp);
  }

  // ---- Responses and batches, exactly ----

  /** A response object with this id and these values, among any others; null stands for nothing. */
  predicate Carries(v: Value, id: nat, result: Value, error: Value)
    requires 1 <= id <= 3
  {
    && v.Object? && KeysReadable(v.members)
    && Lookup(v.members, "id") == [IdTree(id)]
    && (Lookup(v.members, "result") == [result] || (result == Null && Lookup(v.members, "result") == []))
    && (Lookup(v.members, "error") == [error] || (error == Null && Lookup(v.members, "error") == []))
    && ValidUtf8(Text(result)) && ValidUtf8(Text(error))
  }

  function RawText(v: Value): Option<string> {
    if v == Null then None else Some(Text(v))
  }

  lemma OptionalIff(ms: Members, name: string, v: Value)
    requires Lookup(ms, name) == [v] || (v == Null && Lookup(ms, name) == [])
    requires ValidUtf8(Text(v))
    ensures OptionalRaw(ms, name) == Some(RawText(v))
  {
    hide Lookup, Text, ValidUtf8;
  }

  lemma CarriedReads(v: Value, id: nat, result: Value, error: Value)
    requires 1 <= id <= 3 && Carries(v, id, result, error)
    ensures ReadResponse(v) == Some(Response(id as i64, RawText(result), RawText(error)))
  {
    hide KeysReadable, Lookup, Text, ValidUtf8, OptionalRaw, RawText, ReadI64;
    IdReadsBack(id);
    OptionalIff(v.members, "result", result);
    OptionalIff(v.members, "error", error);
    assert IdTree(id).Number?;
  }

  /** What the code makes of one response: its error first, then a missing result, then an unreadable one. */
  function Outcome<T>(result: Value, error: Value, read: string -> Option<T>): Result<T, HealthError> {
    if error != Null then Err(Rpc(Text(error)))
    else if result == Null then Err(Decode(MissingResult))
    else match read(Text(result)) case Some(v) => Ok(v) case None => Err(Decode(Malformed))
  }

  lemma CarriedSays<T>(id: nat, result: Value, error: Value, read: string -> Option<T>)
    requires 1 <= id <= 3
    ensures Says(Response(id as i64, RawText(result), RawText(error)), read) == Outcome(result, error, read)
  {
    hide Text;
  }

  lemma CarriedBatch(body: string, items: Items, order: seq<nat>, results: seq<Value>, errors: seq<Value>)
    requires ParseDocument(body) == Some(Array(items)) && |Elements(items)| == 3
    requires |order| == 3 && |results| == 3 && |errors| == 3
    requires forall k :: 0 <= k < 3 ==>
               1 <= order[k] <= 3 && Carries(Elements(items)[k], order[k], results[order[k] - 1], errors[order[k] - 1])
    ensures ReadBatch(body).Some? && |ReadBatch(body).value| == 3
    ensures forall k :: 0 <= k < 3 ==>
              ReadBatch(body).value[k] ==
              Response(order[k] as i64, RawText(results[order[k] - 1]), RawText(errors[order[k] - 1]))
  {
    hide ParseDocument, Carries, Elements, RawText, ReadResponse;
    var vs := Elements(items);
    CarriedReads(vs[0], order[0], results[order[0] - 1], errors[order[0] - 1]);
    CarriedReads(vs[1], order[1], results[order[1] - 1], errors[order[1] - 1]);
    CarriedReads(vs[2], order[2], results[order[2] - 1], errors[order[2] - 1]);
  }

  /**
   Any body that is an array of three responses with the ids 1, 2 and 3 in any order, each among any other members and
   with nulls written or left out, gives the sync state, the peer count and the block that the results with these ids
   state, each replaced by that response's own failure if it has one.
   */
  lemma BatchSays(body: string, items: Items, order: seq<nat>, results: seq<Value>, errors: seq<Value>)
    requires ParseDocument(body) == Some(Array(items)) && |Elements(items)| == 3
    requires IsOrder(order) && |results| == 3 && |errors| == 3
    requires forall k :: 0 <= k < 3 ==>
               1 <= order[k] <= 3 && Carries(Elements(items)[k], order[k], results[order[k] - 1], errors[order[k] - 1])
    ensures BatchMeaning(body) ==
            Ok(Signals(Outcome(results[0], errors[0], ReadSyncing), Outcome(results[1], errors[1], ReadPeers),
                       Outcome(results[2], errors[2], ReadBlock)))
  {
    hide ParseDocument, Carries, Elements, RawText, ReadBatch, Says, Outcome, Matched, IsOrder, SignalsOf, ReadSyncing,
         ReadPeers, ReadBlock;
    OrderIds(order);
    CarriedBatch(body, items, order, results, errors);
    var rs := ReadBatch(body).value;
    ServedMatched(order, rs);
    MeaningAnswers(rs);
    var t := Signals(Outcome(results[0], errors[0], ReadSyncing), Outcome(results[1], errors[1], ReadPeers),
                     Outcome(results[2], errors[2], ReadBlock));
    forall k | 0 <= k < 3
      ensures order[k] == 1 ==> Says(rs[k], ReadSyncing) == t.syncing
      ensures order[k] == 2 ==> Says(rs[k], ReadPeers) == t.peers
      ensures order[k] == 3 ==> Says(rs[k], ReadBlock) == t.block
    {
      CarriedSays(order[k], results[order[k] - 1], errors[order[k] - 1], ReadSyncing);
      CarriedSays(order[k], results[order[k] - 1], errors[order[k] - 1], ReadPeers);
      CarriedSays(order[k], results[order[k] - 1], errors[order[k] - 1], ReadBlock);
    }
    AnswersUnique(rs, SignalsOf(rs), t);
  }

  /**
   The round trip of the batch for real servers: whatever else the responses and the two result objects hold, in
   whatever order and letter case, the values stated are the values read.
   */
  lemma StatedValuesAreRead(body: string, items: Items, order: seq<nat>, results: seq<Value>, s: ElSyncing, n: u64,
                            b: ElBlock)
    requires ParseDocument(body) == Some(Array(items)) && |Elements(items)| == 3
    requires IsOrder(order) && |results| == 3
    requires forall k :: 0 <= k < 3 ==> WellFormed(results[k])
    requires forall k :: 0 <= k < 3 ==>
               1 <= order[k] <= 3 && Carries(Elements(items)[k], order[k], results[order[k] - 1], Null)
    requires IsSyncing(results[0], s) && IsQuantity(results[1], n)
    requires IsPair(results[2], "number", b.number, "timestamp", b.timestamp)
    ensures BatchMeaning(body) == Ok(Signals(Ok(s), Ok(n), Ok(b)))
  {
    hide ParseDocument, Carries, Elements, IsOrder, ReadSyncing, ReadPeers, ReadBlock, Text, WellFormed, BatchMeaning,
         IsPair, IsQuantity;
    BatchSays(body, items, order, results, [Null, Null, Null]);
    SyncingIff(results[0], s);
    PeersIff(results[1], n);
    BlockIff(results[2], b);
    NotNull(results[0], results[1], results[2], s, n, b);
  }

  lemma NotNull(x: Value, y: Value, z: Value, s: ElSyncing, n: u64, b: ElBlock)
    requires IsSyncing(x, s) && IsQuantity(y, n) && IsPair(z, "number", b.number, "timestamp", b.timestamp)
    ensures x != Null && y != Null && z != Null
  {
    hide KeysReadable, Lookup;
  }

  // ---- What is readable at all ----

  /** An optional member: not there, or there once; null counts as nothing, anything else must be UTF-8. */
  ghost predicate IsOptional(ms: Members, name: string, raw: Option<string>) {
    || (Lookup(ms, name) == [] && raw == None)
    || exists x :: Lookup(ms, name) == [x]
                   && if x == Null then raw == None else ValidUtf8(Text(x)) && raw == Some(Text(x))
  }

  lemma OptionalRawIff(ms: Members, name: string, raw: Option<string>)
    ensures OptionalRaw(ms, name) == Some(raw) <==> IsOptional(ms, name, raw)
  {
    hide Lookup, Text, ValidUtf8;
    if |Lookup(ms, name)| == 1 {
      assert Lookup(ms, name) == [Lookup(ms, name)[0]];
    }
  }

  /** A response is readable exactly when its keys are, it has one integer id, and at most one result and error. */
  lemma ResponseIff(v: Value, r: Response)
    ensures ReadResponse(v) == Some(r) <==>
            && v.Object? && KeysReadable(v.members)
            && (exists n :: Lookup(v.members, "id") == [Number(n)] && ReadI64(n) == Some(r.id))
            && IsOptional(v.members, "result", r.payload) && IsOptional(v.members, "error", r.failure)
  {
    hide KeysReadable, Lookup, ReadI64, OptionalRaw, IsOptional;
    if v.Object? {
      OptionalRawIff(v.members, "result", r.payload);
      OptionalRawIff(v.members, "error", r.failure);
      var ids := Lookup(v.members, "id");
      if |ids| == 1 && ids[0].Number? {
        assert ids == [Number(ids[0].num)];
      }
    }
  }

  /** A body is readable exactly when it is an array of three readable responses. */
  lemma BatchIff(body: string, a: Response, b: Response, c: Response)
    ensures ReadBatch(body) == Some([a, b, c]) <==>
            exists items ::
              && ParseDocument(body) == Some(Array(items)) && |Elements(items)| == 3
              && ReadResponse(Elements(items)[0]) == Some(a) && ReadResponse(Elements(items)[1]) == Some(b)
              && ReadResponse(Elements(items)[2]) == Some(c)
  {
    hide ParseDocument, Elements, ReadResponse;
    if ReadBatch(body) == Some([a, b, c]) {
      var rs := ReadBatch(body).value;
      assert rs[0] == a && rs[1] == b && rs[2] == c;
    }
  }

  // ---- Integers ----

  /** A number is an id exactly when it has no fraction and no exponent, fits in 64 bits, and is not minus zero. */
  lemma I64Iff(n: Num, v: i64)
    ensures ReadI64(n) == Some(v) <==>
            && n.frac.None? && n.exp.None?
            && v as int == (if n.negative then -(Positional(n.whole, 10) as int) else Positional(n.whole, 10))
            && (n.negative ==> v != 0)
  {
    hide Positional;
  }

  /** Decimal digits without leading zeros. */
  function Dec(n: nat): (ds: string)
    ensures ds != ""
  {
    if n < 10 then ["0123456789"[n]] else Dec(n / 10) + ["0123456789"[n % 10]]
  }

  lemma {:induction false} DecReadsBack(n: nat)
    ensures Positional(Dec(n), 10) == n
    decreases n
  {
    if n < 10 {
      DecDigit(n);
      assert Dec(n)[..0] == "";
    } else {
      DecReadsBack(n / 10);
      DecDigit(n % 10);
      assert Dec(n)[..|Dec(n)| - 1] == Dec(n / 10);
    }
  }

  lemma DecDigit(d: nat)
    requires d < 10
    ensures HexDigit("0123456789"[d]) == d
  {
  }

  /** Every 64-bit id is read back from its decimal digits; with a fraction or an exponent none is. */
  lemma IdsReadBack(v: i64, n: Num)
    requires n.negative == (v < 0) && n.whole == Dec(if v < 0 then -(v as int) else v as int)
    ensures ReadI64(n) == if n.frac.None? && n.exp.None? then Some(v) else None
  {
    hide Positional, Dec;
    DecReadsBack(if v < 0 then -(v as int) else v as int);
  }
}
