/**
 Reading the execution layer's JSON (`parse_el_batch` and the deserialisers it uses in `src/health.rs`): three response
 objects, and the raw results they carry. A reader fails on anything it does not expect; what it says then is not kept.
 */
module ElResponses {
  import opened Wrappers
  import opened U64
  import opened Json
  import opened JsonObject
  import opened JsonString
  import opened Quantity

  newtype i64 = x: int | -0x8000_0000_0000_0000 <= x < 0x8000_0000_0000_0000

  /** A response: its id, and the raw texts of a result and an error that are present and not null. */
  datatype Response = Response(id: i64, payload: Option<string>, failure: Option<string>)

  datatype ElSyncing = Synced(flag: bool) | Syncing(current: u64, highest: u64)

  datatype ElBlock = ElBlock(number: u64, timestamp: u64)

  // ---- Responses ----

  /** A number without fraction or exponent that fits; minus zero is read as a fraction and refused. */
  function ReadI64(n: Num): Option<i64> {
    var v: int := Positional(n.whole, 10);
    if n.frac.Some? || n.exp.Some? then None
    else if n.negative then if 0 < v <= 0x8000_0000_0000_0000 then Some((-v) as i64) else None
    else if v < 0x8000_0000_0000_0000 then Some(v as i64)
    else None
  }

  /** An optional member kept as raw text; null counts as missing. A second copy, or text that is not UTF-8, fails. */
  function OptionalRaw(ms: Members, name: string): Option<Option<string>> {
    var vs := Lookup(ms, name);
    if vs == [] then Some(None)
    else if |vs| > 1 then None
    else if vs[0].Null? then Some(None)
    else if ValidUtf8(Text(vs[0])) then Some(Some(Text(vs[0])))
    else None
  }

  /** One response: an object with exactly one integer id; unknown members are skipped. */
  function ReadResponse(v: Value): Option<Response> {
    if !v.Object? || !KeysReadable(v.members) then None
    else
      var ids := Lookup(v.members, "id");
      var payload := OptionalRaw(v.members, "result");
      var failure := OptionalRaw(v.members, "error");
      if |ids| != 1 || !ids[0].Number? || payload.None? || failure.None? then None
      else
        match ReadI64(ids[0].num)
        case None => None
        case Some(id) => Some(Response(id, payload.value, failure.value))
  }

  /** A body: an array of exactly three responses. */
  function ReadBatch(body: string): Option<seq<Response>> {
    match ParseDocument(body)
    case Some(Array(items)) => ReadThree(Elements(items))
    case _ => None
  }

  function ReadThree(vs: seq<Value>): Option<seq<Response>> {
    if |vs| != 3 then None
    else
      match (ReadResponse(vs[0]), ReadResponse(vs[1]), ReadResponse(vs[2]))
      case (Some(a), Some(b), Some(c)) => Some([a, b, c])
      case _ => None
  }

  lemma ReadBatchCount(body: string)
    ensures ReadBatch(body).Some? ==> |ReadBatch(body).value| == 3
  {
    hide ParseDocument, ReadResponse, Elements;
  }

  // ---- Results ----

  function ReadQuantity(v: Value): Option<u64> {
    if !v.Str? then None
    else match StrValue(v.chars) case None => None case Some(t) => HexToU64(t)
  }

  /** A member that must be there once and hold a quantity. */
  function QuantityOf(ms: Members, name: string): Option<u64> {
    var vs := Lookup(ms, name);
    if |vs| == 1 then ReadQuantity(vs[0]) else None
  }

  /** An object with two quantities; unknown members are skipped. */
  function ReadPair(v: Value, first: string, second: string): Option<(u64, u64)> {
    if !v.Object? || !KeysReadable(v.members) then None
    else
      match (QuantityOf(v.members, first), QuantityOf(v.members, second))
      case (Some(a), Some(b)) => Some((a, b))
      case _ => None
  }

  /** A boolean, or an object with the progress made. */
  function ReadSyncing(raw: string): Option<ElSyncing> {
    match ParseDocument(raw)
    case Some(True) => Some(Synced(true))
    case Some(False) => Some(Synced(false))
    case Some(v) =>
      (match ReadPair(v, "currentBlock", "highestBlock") case None => None case Some(p) => Some(Syncing(p.0, p.1)))
    case None => None
  }

  function ReadPeers(raw: string): Option<u64> {
    match ParseDocument(raw) case None => None case Some(v) => ReadQuantity(v)
  }

  function ReadBlock(raw: string): Option<ElBlock> {
    match ParseDocument(raw)
    case None => None
    case Some(v) =>
      match ReadPair(v, "number", "timestamp") case None => None case Some(p) => Some(ElBlock(p.0, p.1))
  }

  // ---- Printed results read back ----

  predicate Ascii(t: string) {
    forall k :: 0 <= k < |t| ==> t[k] as int < 0x80
  }

  lemma AsciiConcat(a: string, b: string)
    requires Ascii(a) && Ascii(b)
    ensures Ascii(a + b)
  {
  }

  function QuantityTree(n: u64): Value {
    Str(Spell("0x" + Hex(n as nat)))
  }

  lemma QuantityReadsBack(n: u64)
    ensures WellFormed(QuantityTree(n)) && Ascii(Text(QuantityTree(n)))
    ensures ReadQuantity(QuantityTree(n)) == Some(n)
  {
    hide HexToU64, StrValue, Spell, HexDigits, IsHex;
    var t := "0x" + Hex(n as nat);
    HexSimple(n);
    SpellIsString(t);
    RoundTrip(n);
    AsciiConcat(t, "\"");
    AsciiConcat("\"", t + "\"");
  }

  lemma HexSimple(n: u64)
    ensures Simple("0x" + Hex(n as nat)) && Ascii("0x" + Hex(n as nat))
  {
    assert forall c :: IsHex(c) ==> IsPlain(c) && c as int < 0x80;
  }

  /** An object with two quantities, printed without whitespace. */
  function PairTree(first: string, a: u64, second: string, b: u64): Value {
    Object(MoreMembers(TightKey(first), QuantityTree(a), "", LastMember(TightKey(second), QuantityTree(b), "")))
  }

  lemma PairReadsBack(first: string, a: u64, second: string, b: u64)
    requires Simple(first) && Simple(second) && Ascii(first) && Ascii(second) && first != second
    ensures var v := PairTree(first, a, second, b);
            WellFormed(v) && Ascii(Text(v)) && ReadPair(v, first, second) == Some((a, b))
  {
    hide QuantityTree, ReadQuantity, KeysReadable, MembersOk, MembersText, Lookup, TightKey, Text, WellFormed;
    QuantityReadsBack(a);
    QuantityReadsBack(b);
    var last := LastMember(TightKey(second), QuantityTree(b), "");
    var ms := MoreMembers(TightKey(first), QuantityTree(a), "", last);
    LastTight(second, QuantityTree(b));
    TightMember(first, QuantityTree(a), last);
    assert Lookup(ms, first) == [QuantityTree(a)] + [];
    MemberAscii(second, Text(QuantityTree(b)), "}");
    MemberAscii(first, Text(QuantityTree(a)), "," + MembersText(last));
    ObjectShape(ms);
    AsciiConcat("{", MembersText(ms));
  }

  lemma MemberAscii(name: string, text: string, rest: string)
    requires Ascii(name) && Ascii(text) && Ascii(rest)
    ensures Ascii("\"" + name + "\":" + text + rest) && Ascii("\"" + name + "\":" + (text + rest))
    ensures Ascii(rest + ",") && Ascii("," + rest)
  {
  }

  function SyncingTree(s: ElSyncing): Value {
    match s
    case Synced(true) => True
    case Synced(false) => False
    case Syncing(a, b) => PairTree("currentBlock", a, "highestBlock", b)
  }

  function BlockTree(b: ElBlock): Value {
    PairTree("number", b.number, "timestamp", b.timestamp)
  }
}
