/**
 The mock classifier's result written out: for a single request in terms of its members, for a batch in terms of its
 elements taken alone, and for any spelling of keys and strings.
 */
module RpcMeaning {
  import opened Wrappers
  import opened Json
  import opened JsonEscapes
  import opened JsonGrammar
  import opened JsonObject
  import opened JsonString
  import opened Rpc
  import opened RpcTheorems
  import opened Strings

  // ---- One request ----

  /**
   A body that is one object: it is kept exactly when every key is readable, the version is there once and "2.0", the
   method once and "eth_syncing", params at most once and then an empty array, and the id at most once and then a
   string, a number or null in UTF-8. Without an id it is silent; with one the reply carries its text.
   */
  lemma RequestIff(body: string, ms: Members)
    requires ParseDocument(body) == Some(Object(ms))
    ensures var versions, names := Lookup(ms, "jsonrpc"), Lookup(ms, "method");
            var params, ids := Lookup(ms, "params"), Lookup(ms, "id");
            var kept :=
              && KeysReadable(ms)
              && |versions| == 1 && versions[0].Str? && StrValue(versions[0].chars) == Some("2.0")
              && |names| == 1 && names[0].Str? && StrValue(names[0].chars) == Some("eth_syncing")
              && (params == [] || (|params| == 1 && params[0].EmptyArray?))
              && (ids == [] || (&& |ids| == 1 && (ids[0].Str? || ids[0].Number? || ids[0].Null?)
                                && ValidUtf8(Text(ids[0]))));
            Classify(body) ==
            if !kept then Forward
            else if ids == [] then Silent
            else Reply("{\"jsonrpc\":\"2.0\",\"id\":" + Text(ids[0]) + ",\"result\":false}")
  {
    hide ParseDocument, KeysReadable, Lookup, StrValue, ValidUtf8, Text, Answer, Local;
    RequestKept(ms);
    if Lookup(ms, "id") != [] {
      AnswerText(Text(Lookup(ms, "id")[0]));
    }
  }

  lemma AnswerText(id: string)
    ensures Answer(id) == "{\"jsonrpc\":\"2.0\",\"id\":" + id + ",\"result\":false}"
  {
  }

  lemma RequestKept(ms: Members)
    ensures var versions, names := Lookup(ms, "jsonrpc"), Lookup(ms, "method");
            var params, ids := Lookup(ms, "params"), Lookup(ms, "id");
            Local(Object(ms)) <==>
            && KeysReadable(ms)
            && |versions| == 1 && versions[0].Str? && StrValue(versions[0].chars) == Some("2.0")
            && |names| == 1 && names[0].Str? && StrValue(names[0].chars) == Some("eth_syncing")
            && (params == [] || (|params| == 1 && params[0].EmptyArray?))
            && (ids == [] || (&& |ids| == 1 && (ids[0].Str? || ids[0].Number? || ids[0].Null?)
                              && ValidUtf8(Text(ids[0]))))
  {
    hide KeysReadable, Lookup, StrValue, ValidUtf8, Text;
    var params, ids := Lookup(ms, "params"), Lookup(ms, "id");
    assert |params| == 1 ==> params == [params[0]] && params[0] in params;
    assert |ids| == 1 ==> ids == [ids[0]] && ids[0] in ids;
    assert |params| == 0 ==> params == [];
    assert |ids| == 0 ==> ids == [];
  }

  // ---- Batches ----

  /** The replies the values would get alone, in order. */
  function Singles(vs: seq<Value>): seq<string> {
    if vs == [] then []
    else
      match Classify(Text(vs[0]))
      case Reply(t) => [t] + Singles(vs[1..])
      case _ => Singles(vs[1..])
  }

  /** Alone, a well-formed value that is not an array means what it means as a tree. */
  lemma AloneMeans(v: Value)
    requires WellFormed(v)
    ensures Classify(Text(v)) == Outcome(v)
  {
    hide ParseDocument, Outcome, Text, WellFormed;
    TightDocument(v);
  }

  lemma ElementMeans(v: Value)
    requires WellFormed(v) && !v.Array?
    ensures Classify(Text(v)) ==
            if !Local(v) then Forward else match IdOf(v) case None => Silent case Some(id) => Reply(Answer(id))
  {
    hide Classify, Text, WellFormed, Local, IdOf, Answer;
    AloneMeans(v);
  }

  function Answers(ids: seq<string>): (r: seq<string>)
    ensures |r| == |ids|
  {
    if ids == [] then [] else [Answer(ids[0])] + Answers(ids[1..])
  }

  lemma {:induction false} SinglesAreAnswers(vs: seq<Value>)
    requires AllLocal(vs) && AllWellFormed(vs) && forall k :: 0 <= k < |vs| ==> !vs[k].Array?
    ensures Singles(vs) == Answers(Ids(vs))
    decreases |vs|
  {
    hide Classify, Text, WellFormed, Local, IdOf, Answer;
    if vs != [] {
      ElementMeans(vs[0]);
      SinglesAreAnswers(vs[1..]);
      if IdOf(vs[0]).Some? {
        assert Ids(vs)[1..] == Ids(vs[1..]);
      }
    }
  }

  lemma {:induction false} JoinedIsJoin(ids: seq<string>)
    requires ids != []
    ensures Joined(ids) == Join(Answers(ids), ",")
    decreases |ids|
  {
    hide Answer;
    if |ids| == 1 {
      assert Answers(ids) == [Answer(ids[0])];
    } else {
      JoinedIsJoin(ids[1..]);
      assert Answers(ids)[1..] == Answers(ids[1..]);
    }
  }

  /**
   A batch is kept exactly when each of its elements, none of them an array, would be kept alone; its reply is theirs,
   in order, between brackets and separated by commas.
   */
  lemma BatchIsElementwise(body: string, items: Items)
    requires ParseDocument(body) == Some(Array(items))
    ensures var vs := Elements(items);
            Classify(body) ==
            if exists k :: 0 <= k < |vs| && (vs[k].Array? || Classify(Text(vs[k])) == Forward) then Forward
            else if Singles(vs) == [] then Silent
            else Reply("[" + Join(Singles(vs), ",") + "]")
  {
    hide ParseDocument, Text, WellFormed, ItemsOk, Local, IdOf, Answer, OpenBatch, Ids, Elements, Classify, Singles;
    var vs := Elements(items);
    BatchMeans(body, items);
    forall k | 0 <= k < |vs|
      ensures Local(vs[k]) <==> !vs[k].Array? && Classify(Text(vs[k])) != Forward
    {
      LocalNotArray(vs[k]);
      if !vs[k].Array? {
        ElementMeans(vs[k]);
      }
    }
    if AllLocal(vs) {
      SinglesAreAnswers(vs);
      if Ids(vs) != [] {
        OpenBatchJoined(Ids(vs));
        JoinedIsJoin(Ids(vs));
      }
    }
  }

  lemma LocalNotArray(v: Value)
    ensures Local(v) ==> !v.Array?
  {
  }

  lemma BatchMeans(body: string, items: Items)
    requires ParseDocument(body) == Some(Array(items))
    ensures Classify(body) == BatchOutcome(Elements(items))
    ensures Elements(items) != [] && AllWellFormed(Elements(items))
  {
    hide ParseDocument, BatchOutcome, WellFormed;
    DocumentIff(body, Array(items));
    ArrayItems(items);
    ElementsWellFormed(items);
    SomeElement(items);
  }

  lemma ArrayItems(items: Items)
    ensures WellFormed(Array(items)) <==> ItemsOk(items)
  {
    hide ItemsOk;
  }

  // ---- Spelling does not matter ----

  /** Two strings that spell the same text. */
  ghost predicate SameText(cs: Chars, ds: Chars) {
    exists t: string :: Spells(cs, t) && Spells(ds, t)
  }

  /** Two values that differ at most in how a string is spelled. */
  ghost predicate SameButSpelling(v: Value, w: Value) {
    v == w || (v.Str? && w.Str? && SameText(v.chars, w.chars))
  }

  /** The same members in the same order, keys and strings spelled in any way; the id keeps its own text. */
  ghost predicate Respelled(ms: Members, ns: Members) {
    && SameText(ms.key.name, ns.key.name)
    && SameButSpelling(ms.value, ns.value)
    && (KeyName(ms.key) == Some("id") ==> ms.value == ns.value)
    && (ms.MoreMembers? <==> ns.MoreMembers?)
    && (ms.MoreMembers? ==> Respelled(ms.rest, ns.rest))
  }

  lemma SameTextSameValue(cs: Chars, ds: Chars)
    requires CharsOk(cs) && CharsOk(ds) && SameText(cs, ds)
    ensures StrValue(cs) == StrValue(ds)
  {
    hide CharsOk, StrValue, Spells, ValidUtf8;
    forall t: string
      ensures StrValue(cs) == Some(t) <==> Spells(cs, t) && ValidUtf8(t)
      ensures StrValue(ds) == Some(t) <==> Spells(ds, t) && ValidUtf8(t)
    {
      StrValueIff(cs, t);
      StrValueIff(ds, t);
    }
    var t: string :| Spells(cs, t) && Spells(ds, t);
    SpellsOne(cs, t);
    SpellsOne(ds, t);
  }

  lemma SpellsOne(cs: Chars, t: string)
    requires CharsOk(cs) && Spells(cs, t)
    ensures StrValue(cs) == if ValidUtf8(t) then Some(t) else None
  {
    hide CharsOk, Decode, ValidUtf8, Print, Meaning, PiecesOk;
    var ps: seq<Piece> :| PiecesOk(ps) && Print(ps) == cs && Meaning(ps) == t;
    SpellingReadsBack(ps);
  }

  /** Two values no reader of a request can tell apart, unless it looks at their text. */
  predicate Alike(v: Value, w: Value) {
    v == w || (v.Str? && w.Str? && StrValue(v.chars) == StrValue(w.chars))
  }

  predicate AllAlike(vs: seq<Value>, ws: seq<Value>) {
    |vs| == |ws| && forall k :: 0 <= k < |vs| ==> Alike(vs[k], ws[k])
  }

  lemma RespelledHead(ms: Members, ns: Members)
    requires MembersOk(ms) && MembersOk(ns) && Respelled(ms, ns)
    ensures KeyName(ms.key) == KeyName(ns.key) && Alike(ms.value, ns.value)
    ensures KeyName(ms.key) == Some("id") ==> ms.value == ns.value
    ensures ms.MoreMembers? <==> ns.MoreMembers?
    ensures ms.MoreMembers? ==> MembersOk(ms.rest) && MembersOk(ns.rest) && Respelled(ms.rest, ns.rest)
  {
    hide SameText, StrValue, CharsOk, Blank;
    SameTextSameValue(ms.key.name, ns.key.name);
    if ms.value != ns.value {
      StringOk(ms.value);
      StringOk(ns.value);
      SameTextSameValue(ms.value.chars, ns.value.chars);
    }
  }

  lemma AlikeCons(v: Value, w: Value, vs: seq<Value>, ws: seq<Value>)
    requires Alike(v, w) && AllAlike(vs, ws)
    ensures AllAlike([v] + vs, [w] + ws)
  {
    hide Alike;
  }

  lemma {:induction false} RespelledLookups(ms: Members, ns: Members, name: string)
    requires MembersOk(ms) && MembersOk(ns) && Respelled(ms, ns)
    ensures AllAlike(Lookup(ms, name), Lookup(ns, name))
    ensures name == "id" ==> Lookup(ms, name) == Lookup(ns, name)
    ensures KeysReadable(ms) <==> KeysReadable(ns)
    decreases ms
  {
    hide MembersOk, Respelled, KeyName, Alike, AllAlike;
    RespelledHead(ms, ns);
    NothingAlike();
    if ms.MoreMembers? {
      RespelledLookups(ms.rest, ns.rest, name);
      AlikeCons(ms.value, ns.value, Lookup(ms.rest, name), Lookup(ns.rest, name));
      assert [] + Lookup(ms.rest, name) == Lookup(ms.rest, name) && [] + Lookup(ns.rest, name) == Lookup(ns.rest, name);
    } else {
      AlikeCons(ms.value, ns.value, [], []);
      assert [ms.value] + [] == [ms.value] && [ns.value] + [] == [ns.value];
    }
  }

  lemma NothingAlike()
    ensures AllAlike([], [])
  {
  }

  lemma StringOk(v: Value)
    requires WellFormed(v)
    ensures v.Str? ==> CharsOk(v.chars)
  {
  }

  lemma RespelledLocal(ms: Members, ns: Members)
    requires MembersOk(ms) && MembersOk(ns) && Respelled(ms, ns)
    ensures Local(Object(ms)) <==> Local(Object(ns))
    ensures Local(Object(ms)) ==> IdOf(Object(ms)) == IdOf(Object(ns))
  {
    hide MembersOk, Respelled, Lookup, KeysReadable, StrValue, Text, IsId;
    RespelledLookups(ms, ns, "jsonrpc");
    RespelledLookups(ms, ns, "method");
    RespelledLookups(ms, ns, "params");
    RespelledLookups(ms, ns, "id");
    AlikeParams(Lookup(ms, "params"), Lookup(ns, "params"));
    AlikeParams(Lookup(ns, "params"), Lookup(ms, "params"));
  }

  lemma AlikeParams(vs: seq<Value>, ws: seq<Value>)
    requires AllAlike(vs, ws)
    ensures (forall p :: p in vs ==> p.EmptyArray?) ==> (forall p :: p in ws ==> p.EmptyArray?)
  {
    hide StrValue;
    if forall p :: p in vs ==> p.EmptyArray? {
      forall k | 0 <= k < |ws|
        ensures ws[k].EmptyArray?
      {
        assert vs[k] in vs;
        assert Alike(vs[k], ws[k]);
      }
    }
  }

  /** A body that is one request classifies as any respelling of it does. */
  lemma SpellingIrrelevant(body: string, other: string, ms: Members, ns: Members)
    requires ParseDocument(body) == Some(Object(ms)) && ParseDocument(other) == Some(Object(ns))
    requires Respelled(ms, ns)
    ensures Classify(body) == Classify(other)
  {
    hide ParseDocument, Respelled, Local, IdOf, MembersOk;
    DocumentIff(body, Object(ms));
    DocumentIff(other, Object(ns));
    RespelledLocal(ms, ns);
  }

  lemma {:induction false} RespelledBatch(vs: seq<Value>, ws: seq<Value>)
    requires |vs| == |ws|
    requires forall k :: 0 <= k < |vs| ==>
               (Local(vs[k]) <==> Local(ws[k])) && (Local(vs[k]) ==> IdOf(vs[k]) == IdOf(ws[k]))
    ensures AllLocal(vs) <==> AllLocal(ws)
    ensures AllLocal(vs) ==> Ids(vs) == Ids(ws)
    decreases |vs|
  {
    hide Local, IdOf;
    if vs != [] {
      RespelledBatch(vs[1..], ws[1..]);
    }
    if AllLocal(vs) {
      assert forall k :: 0 <= k < |vs| ==> Local(vs[k]);
    }
  }

  /** And so does a batch whose elements are respelled one by one. */
  lemma SpellingIrrelevantInBatch(body: string, other: string, items: Items, others: Items)
    requires ParseDocument(body) == Some(Array(items)) && ParseDocument(other) == Some(Array(others))
    requires |Elements(items)| == |Elements(others)|
    requires forall k :: 0 <= k < |Elements(items)| ==>
               var v, w := Elements(items)[k], Elements(others)[k];
               v == w || (v.Object? && w.Object? && Respelled(v.members, w.members))
    ensures Classify(body) == Classify(other)
  {
    hide ParseDocument, Respelled, Local, IdOf, Elements, Ids, Classify, WellFormed, MembersOk;
    BatchMeans(body, items);
    BatchMeans(other, others);
    var vs, ws := Elements(items), Elements(others);
    forall k | 0 <= k < |vs|
      ensures (Local(vs[k]) <==> Local(ws[k])) && (Local(vs[k]) ==> IdOf(vs[k]) == IdOf(ws[k]))
    {
      if vs[k] != ws[k] {
        ObjectOk(vs[k]);
        ObjectOk(ws[k]);
        RespelledLocal(vs[k].members, ws[k].members);
      }
    }
    RespelledBatch(vs, ws);
  }

  lemma ObjectOk(v: Value)
    requires v.Object? && WellFormed(v)
    ensures MembersOk(v.members) && v == Object(v.members)
  {
  }

  // ---- Every spelling of a request is answered ----

  /** A member without whitespace, in front of the rest of its object. */
  function MemberText(key: string, value: string, rest: string): string {
    "\"" + key + "\":" + value + "," + rest
  }

  function LastText(key: string, value: string): string {
    "\"" + key + "\":" + (value + "}")
  }

  function Quoted(t: string): string {
    "\"" + (t + "\"")
  }

  /** The text of a request whose keys and strings are spelled by the given pieces. */
  function SpelledCall(a: seq<Piece>, b: seq<Piece>, c: seq<Piece>, d: seq<Piece>, e: seq<Piece>, f: seq<Piece>,
                       id: string): string
    requires PiecesOk(a) && PiecesOk(b) && PiecesOk(c) && PiecesOk(d) && PiecesOk(e) && PiecesOk(f)
  {
    var last := LastText(Spelling(f), id);
    var params := MemberText(Spelling(e), "[]", last);
    var call := MemberText(Spelling(c), Quoted(Spelling(d)), params);
    "{" + MemberText(Spelling(a), Quoted(Spelling(b)), call)
  }

  predicate Ascii(t: string) {
    forall k :: 0 <= k < |t| ==> t[k] as int < 0x80
  }

  lemma CallWordsAscii()
    ensures Ascii("jsonrpc") && Ascii("2.0") && Ascii("method") && Ascii("eth_syncing")
    ensures Ascii("params") && Ascii("id")
  {
  }

  lemma AsciiSpelled(ps: seq<Piece>)
    requires PiecesOk(ps) && Ascii(Meaning(ps))
    ensures StrValue(Print(ps)) == Some(Meaning(ps)) && CharsOk(Print(ps)) && CharsText(Print(ps)) == Spelling(ps)
    ensures WellFormed(Str(Print(ps))) && Text(Str(Print(ps))) == Quoted(Spelling(ps))
  {
    hide ParseDocument, Spelling, Print, ValidUtf8, Decode, Meaning, PiecesOk, CharsOk, CharsText;
    SpelledDocument(ps);
    SpellingReadsBack(ps);
    StringShape(Print(ps));
    AsciiIsUtf8(Meaning(ps));
  }

  /**
   However its keys, version and method are spelled, plainly, with short escapes or by number, a request is answered
   with its own id.
   */
  lemma {:induction false} SpelledCallAnswered(a: seq<Piece>, b: seq<Piece>, c: seq<Piece>, d: seq<Piece>,
                                               e: seq<Piece>, f: seq<Piece>, id: Value)
    requires PiecesOk(a) && PiecesOk(b) && PiecesOk(c) && PiecesOk(d) && PiecesOk(e) && PiecesOk(f)
    requires Meaning(a) == "jsonrpc" && Meaning(b) == "2.0" && Meaning(c) == "method" && Meaning(d) == "eth_syncing"
    requires Meaning(e) == "params" && Meaning(f) == "id"
    requires WellFormed(id) && (id.Str? || id.Number? || id.Null?) && ValidUtf8(Text(id))
    ensures Classify(SpelledCall(a, b, c, d, e, f, Text(id))) ==
            Reply("{\"jsonrpc\":\"2.0\",\"id\":" + Text(id) + ",\"result\":false}")
  {
    hide Spelling, Print, ValidUtf8, Meaning, PiecesOk, StrValue, CharsOk, CharsText, WellFormed, Text, Classify,
         CallMembers, MembersText, Ascii, SpelledCall, Answer, Quoted;
    CallWordsAscii();
    AsciiSpelled(a);
    AsciiSpelled(b);
    AsciiSpelled(c);
    AsciiSpelled(d);
    AsciiSpelled(e);
    AsciiSpelled(f);
    SpelledIsCall(a, b, c, d, e, f, id);
    CallAnswered(Print(a), Str(Print(b)), Print(c), Str(Print(d)), Print(e), Print(f), id);
    AnswerText(Text(id));
  }

  lemma {:induction false} CallAnswered(a: Chars, version: Value, c: Chars, call: Value, e: Chars, f: Chars, id: Value)
    requires CallKeys(a, c, e, f) && WellFormed(version) && WellFormed(call) && WellFormed(id)
    requires IsString(version, "2.0") && IsString(call, "eth_syncing") && IsId(id)
    ensures Classify("{" + MembersText(CallMembers(a, version, c, call, e, f, id))) == Reply(Answer(Text(id)))
  {
    hide ParseDocument, StrValue, CharsOk, Lookup, KeysReadable, MembersOk, MembersText, WellFormed, Text, Answer,
         CallMembers, ValidUtf8;
    var ms := CallMembers(a, version, c, call, e, f, id);
    CallLookups(a, version, c, call, e, f, id);
    ObjectShape(ms);
    TightDocument(Object(ms));
  }

  lemma {:induction false} SpelledIsCall(a: seq<Piece>, b: seq<Piece>, c: seq<Piece>, d: seq<Piece>, e: seq<Piece>,
                                         f: seq<Piece>, id: Value)
    requires PiecesOk(a) && PiecesOk(b) && PiecesOk(c) && PiecesOk(d) && PiecesOk(e) && PiecesOk(f)
    requires CallKeys(Print(a), Print(c), Print(e), Print(f)) && WellFormed(id)
    requires WellFormed(Str(Print(b))) && Text(Str(Print(b))) == Quoted(Spelling(b))
    requires WellFormed(Str(Print(d))) && Text(Str(Print(d))) == Quoted(Spelling(d))
    requires CharsText(Print(a)) == Spelling(a) && CharsText(Print(c)) == Spelling(c)
    requires CharsText(Print(e)) == Spelling(e) && CharsText(Print(f)) == Spelling(f)
    ensures SpelledCall(a, b, c, d, e, f, Text(id)) ==
            "{" + MembersText(CallMembers(Print(a), Str(Print(b)), Print(c), Str(Print(d)), Print(e), Print(f), id))
  {
    hide Spelling, Print, PiecesOk, StrValue, CharsOk, CharsText, WellFormed, Text, CallMembers, MembersText, CallKeys,
         MemberText, LastText, Quoted;
    CallText(Print(a), Str(Print(b)), Print(c), Str(Print(d)), Print(e), Print(f), id);
  }

  function CallMembers(a: Chars, version: Value, c: Chars, call: Value, e: Chars, f: Chars, id: Value): Members {
    MoreMembers(BareKey(a), version, "",
      MoreMembers(BareKey(c), call, "",
        MoreMembers(BareKey(e), EmptyArray(""), "",
          LastMember(BareKey(f), id, ""))))
  }

  predicate CallKeys(a: Chars, c: Chars, e: Chars, f: Chars) {
    && CharsOk(a) && StrValue(a) == Some("jsonrpc") && CharsOk(c) && StrValue(c) == Some("method")
    && CharsOk(e) && StrValue(e) == Some("params") && CharsOk(f) && StrValue(f) == Some("id")
  }

  lemma {:induction false} CallLookups(a: Chars, version: Value, c: Chars, call: Value, e: Chars, f: Chars, id: Value)
    requires CallKeys(a, c, e, f) && WellFormed(version) && WellFormed(call) && WellFormed(id)
    ensures var ms := CallMembers(a, version, c, call, e, f, id);
            && MembersOk(ms) && KeysReadable(ms)
            && Lookup(ms, "jsonrpc") == [version] && Lookup(ms, "method") == [call]
            && Lookup(ms, "params") == [EmptyArray("")] && Lookup(ms, "id") == [id]
  {
    hide StrValue, CharsOk, Lookup, KeysReadable, MembersOk, MembersText, WellFormed, Text, BareKey, CharsText;
    EmptyArrayShape();
    var last := LastMember(BareKey(f), id, "");
    var params := MoreMembers(BareKey(e), EmptyArray(""), "", last);
    var called := MoreMembers(BareKey(c), call, "", params);
    BareLast(f, "id", id);
    BareMember(e, "params", EmptyArray(""), last);
    BareMember(c, "method", call, params);
    BareMember(a, "jsonrpc", version, called);
    assert [version] + [] == [version] && [call] + [] == [call] && [EmptyArray("")] + [] == [EmptyArray("")];
  }

  lemma {:induction false} CallText(a: Chars, version: Value, c: Chars, call: Value, e: Chars, f: Chars, id: Value)
    requires CallKeys(a, c, e, f) && WellFormed(version) && WellFormed(call) && WellFormed(id)
    ensures var last := LastText(CharsText(f), Text(id));
            var params := MemberText(CharsText(e), "[]", last);
            var rest := MemberText(CharsText(c), Text(call), params);
            MembersText(CallMembers(a, version, c, call, e, f, id)) == MemberText(CharsText(a), Text(version), rest)
  {
    hide StrValue, CharsOk, Lookup, KeysReadable, MembersOk, MembersText, WellFormed, Text, BareKey, CharsText;
    EmptyArrayShape();
    var last := LastMember(BareKey(f), id, "");
    var params := MoreMembers(BareKey(e), EmptyArray(""), "", last);
    var called := MoreMembers(BareKey(c), call, "", params);
    BareLast(f, "id", id);
    BareMember(e, "params", EmptyArray(""), last);
    BareMember(c, "method", call, params);
    BareMember(a, "jsonrpc", version, called);
  }

  lemma EmptyArrayShape()
    ensures WellFormed(EmptyArray("")) && Text(EmptyArray("")) == "[]"
  {
  }
}
