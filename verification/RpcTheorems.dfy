/**
 What holds of the mock classifier on every byte string: when it answers, that the prefilter never changes
 the answer, that whitespace around a body never matters, and that its replies parse back.
 */
module RpcTheorems {
  import opened Wrappers
  import opened Json
  import opened JsonObject
  import opened JsonGrammar
  import opened JsonString
  import opened Rpc
  import opened RpcStreamProofs
  import opened MockSyncing

  // ---- When a body is answered locally ----

  predicate Handled(v: Value) {
    Local(v) || (v.Array? && AllLocal(Elements(v.items)))
  }

  /**
   A body is answered or silenced exactly when it is, with nothing after it, the text of one local request or of
   a non-empty array of local requests. A single other element, a truncation or a trailing byte forwards it.
   */
  lemma HandledIff(body: string)
    ensures Classify(body) != Forward <==> exists v: Value :: WellFormed(v) && IsDocument(body, v) && Handled(v)
  {
    hide Local, ParseDocument, IsDocument, WellFormed, Ids, OpenBatch, Answer;
    forall v: Value | WellFormed(v) && IsDocument(body, v) && Handled(v)
      ensures Classify(body) != Forward
    {
      DocumentIff(body, v);
      OutcomeHandled(v);
    }
    if ParseDocument(body).Some? {
      var v := ParseDocument(body).value;
      DocumentIff(body, v);
      OutcomeHandled(v);
    }
  }

  lemma OutcomeHandled(v: Value)
    ensures Outcome(v) != Forward <==> Handled(v)
  {
    hide Ids, OpenBatch, Answer, IdOf, Local, Elements, AllLocal;
    LocalIsObject(v);
    if v.Array? {
      SomeElement(v.items);
    }
  }

  lemma SomeElement(items: Items)
    ensures Elements(items) != []
  {
  }

  // ---- The prefilter ----

  predicate Contains(s: string, t: string) {
    exists i: nat :: i <= |s| && At(s, i, t)
  }

  /** A value found by name in an object that stands in `s` stands in `s` itself. */
  lemma {:induction false} LookupStands(s: string, i: nat, ms: Members, name: string, v: Value) returns (p: nat)
    requires MembersOk(ms) && At(s, i, MembersText(ms)) && v in Lookup(ms, name)
    ensures WellFormed(v) && At(s, p, Text(v))
    decreases ms
  {
    hide At, Text, WellFormed, KeyName, MembersText;
    MembersPieces(s, i, ms);
    if v == ms.value {
      p := i + |KeyText(ms.key)|;
    } else {
      p := LookupStands(s, i + |KeyText(ms.key)| + |Text(ms.value)| + |ms.after| + 1, ms.rest, name, v);
    }
  }

  lemma LocalShowsMethod(s: string, i: nat, v: Value)
    requires WellFormed(v) && At(s, i, Text(v)) && Local(v) && '\\' !in s
    ensures Contains(s, "eth_syncing")
  {
    hide WellFormed, MembersText, CharsText, KeysReadable, Lookup, ValidUtf8;
    var called := Lookup(v.members, "method")[0];
    AtConcat(s, i, "{", MembersText(v.members));
    ObjectMembersOk(v);
    var p := LookupStands(s, i + 1, v.members, "method", called);
    StrShows(s, p, called, "eth_syncing");
  }

  lemma ObjectMembersOk(v: Value)
    requires v.Object? && WellFormed(v)
    ensures MembersOk(v.members)
  {
  }

  /** Without a backslash in the input, a decoded string is a slice of the input. */
  lemma StrShows(s: string, p: nat, v: Value, text: string)
    requires WellFormed(v) && At(s, p, Text(v)) && IsString(v, text) && '\\' !in s
    ensures Contains(s, text)
  {
    var cs := v.chars;
    AtConcat(s, p, "\"", CharsText(cs) + "\"");
    AtConcat(s, p + 1, CharsText(cs), "\"");
    assert forall k :: 0 <= k < |CharsText(cs)| ==> CharsText(cs)[k] == s[p + 1 + k];
    DecodePlain(cs);
    assert At(s, p + 1, text);
  }

  /** No body without a backslash and without a literal `eth_syncing` can be answered locally. */
  lemma PrefilterSound(s: string)
    requires '\\' !in s && !Contains(s, "eth_syncing")
    ensures Classify(s) == Forward
  {
    hide At, Local, ParseValue, WellFormed, SkipWs, Contains, Text, ItemsText;
    if ParseDocument(s).Some? {
      var v := ParseDocument(s).value;
      var i := SkipWs(s, 0);
      ValueSound(s, i);
      OutcomeHandled(v);
      if Local(v) {
        LocalShowsMethod(s, i, v);
      } else if v.Array? && AllLocal(Elements(v.items)) {
        FirstElement(s, i, v.items);
        LocalShowsMethod(s, i + 1 + |v.items.before|, v.items.value);
      }
    }
  }

  lemma FirstElement(s: string, i: nat, items: Items)
    requires WellFormed(Array(items)) && At(s, i, Text(Array(items))) && AllLocal(Elements(items))
    ensures WellFormed(items.value) && Local(items.value)
    ensures At(s, i + 1 + |items.before|, Text(items.value))
  {
    hide At, ItemsText, Local;
    AtConcat(s, i, "[", ItemsText(items));
    ItemsPieces(s, i + 1, items);
    assert Elements(items)[0] == items.value;
  }

  const PREFILTER_LIMIT: nat := 256

  /** The entry point: short bodies that cannot hold the method are forwarded unread. */
  method Mock(s: string) returns (r: MockResult)
    ensures r == Classify(s)
  {
    hide Classify;
    if |s| <= PREFILTER_LIMIT && ValidUtf8(s) && !Contains(s, "eth_syncing") && '\\' !in s {
      PrefilterSound(s);
      return Forward;
    }
    r := ParseMockSyncing(s);
  }

  // ---- Whitespace around a body ----

  lemma InkyEnds(v: Value)
    requires WellFormed(v)
    ensures var t := Text(v); |t| > 0 && !IsWs(t[0]) && !IsWs(t[|t| - 1])
  {
    InkyFirst(v);
    LastChar(v);
  }

  /** Two ways to cut one text: padding on both sides can only be cut from the other's padding. */
  lemma Unpad(pre: string, s: string, post: string, p: string, t: string, q: string)
    requires Blank(pre) && Blank(post) && pre + s + post == p + (t + q)
    requires |t| > 0 && !IsWs(t[0]) && !IsWs(t[|t| - 1])
    ensures |pre| <= |p| && |post| <= |q|
    ensures s == p[|pre|..] + (t + q[..|q| - |post|])
  {
    var whole := pre + s + post;
    var last := |p| + |t| - 1;
    assert whole[|p|] == t[0] && whole[last] == t[|t| - 1];
    assert forall k :: 0 <= k < |pre| ==> whole[k] == pre[k] && IsWs(whole[k]);
    assert forall k :: |pre + s| <= k < |whole| ==> whole[k] == post[k - |pre + s|] && IsWs(whole[k]);
    var cut := whole[|pre|..|whole| - |post|];
    var rest := p[|pre|..] + (t + q[..|q| - |post|]);
    assert s == cut;
    assert |cut| == |rest|;
    forall k | 0 <= k < |cut|
      ensures cut[k] == rest[k]
    {
      assert cut[k] == whole[|pre| + k];
    }
  }

  lemma PadIn(pre: string, s: string, post: string, v: Value)
    requires Blank(pre) && Blank(post) && IsDocument(s, v)
    ensures IsDocument(pre + s + post, v)
  {
    hide Text;
    var t := Text(v);
    var p: string, q: string :| Blank(p) && Blank(q) && s == p + (t + q);
    assert pre + s + post == (pre + p) + (t + (q + post));
    IntroDocument(pre + s + post, pre + p, v, q + post);
  }

  lemma PadOut(pre: string, s: string, post: string, v: Value)
    requires Blank(pre) && Blank(post) && WellFormed(v) && IsDocument(pre + s + post, v)
    ensures IsDocument(s, v)
  {
    hide WellFormed, Text;
    var t := Text(v);
    InkyEnds(v);
    var p: string, q: string :| Blank(p) && Blank(q) && pre + s + post == p + (t + q);
    Unpad(pre, s, post, p, t, q);
    IntroDocument(s, p[|pre|..], v, q[..|q| - |post|]);
  }

  lemma PadDocument(pre: string, s: string, post: string, v: Value)
    requires Blank(pre) && Blank(post) && WellFormed(v)
    ensures IsDocument(s, v) <==> IsDocument(pre + s + post, v)
  {
    hide IsDocument, WellFormed;
    if IsDocument(s, v) {
      PadIn(pre, s, post, v);
    }
    if IsDocument(pre + s + post, v) {
      PadOut(pre, s, post, v);
    }
  }

  /** Whitespace before or after a body never changes its classification, at any length. */
  lemma PaddingIrrelevant(pre: string, s: string, post: string)
    requires Blank(pre) && Blank(post)
    ensures Classify(pre + s + post) == Classify(s)
  {
    hide ParseDocument, IsDocument, WellFormed, Outcome, Blank;
    var whole := pre + s + post;
    if ParseDocument(s).Some? {
      var v := ParseDocument(s).value;
      DocumentIff(s, v);
      PadDocument(pre, s, post, v);
      DocumentIff(whole, v);
    }
    if ParseDocument(whole).Some? {
      var v := ParseDocument(whole).value;
      DocumentIff(whole, v);
      PadDocument(pre, s, post, v);
      DocumentIff(s, v);
    }
  }

  // ---- Replies parse back ----

  function AnswerTree(id: Value): Value {
    Object(MoreMembers(TightKey("jsonrpc"), Str(Spell("2.0")), "",
      MoreMembers(TightKey("id"), id, "",
        LastMember(TightKey("result"), False, ""))))
  }

  function Size(ms: Members): nat {
    1 + if ms.MoreMembers? then Size(ms.rest) else 0
  }

  /** JSON-RPC 2.0, section 5: exactly version 2.0, the request's id byte for byte, and the result false. */
  predicate IsAnswer(v: Value, id: string) {
    && v.Object? && Size(v.members) == 3
    && |Lookup(v.members, "jsonrpc")| == 1 && IsString(Lookup(v.members, "jsonrpc")[0], "2.0")
    && |Lookup(v.members, "id")| == 1 && Text(Lookup(v.members, "id")[0]) == id
    && Lookup(v.members, "result") == [False]
  }

  lemma AnswerTreeText(id: Value)
    requires WellFormed(id)
    ensures WellFormed(AnswerTree(id)) && Text(AnswerTree(id)) == Answer(Text(id))
    ensures IsAnswer(AnswerTree(id), Text(id))
  {
    hide Spell, MembersText, MembersOk, Lookup, StrValue, Answer, Size, IsString;
    AnswerMembers(id);
    AnswerShape(id, MembersText(AnswerTree(id).members));
    AnswerSize(id);
    SpellIsString("2.0");
    assert [Str(Spell("2.0"))][0] == Str(Spell("2.0")) && [id][0] == id;
  }

  lemma AnswerSize(id: Value)
    ensures AnswerTree(id).Object? && Size(AnswerTree(id).members) == 3
  {
    hide Spell;
    assert Size(AnswerTree(id).members.rest) == 2;
  }

  lemma AnswerMembers(id: Value)
    requires WellFormed(id)
    ensures var ms := AnswerTree(id).members;
            && MembersOk(ms) && Lookup(ms, "jsonrpc") == [Str(Spell("2.0"))]
            && Lookup(ms, "id") == [id] && Lookup(ms, "result") == [False]
            && MembersText(ms) ==
               "\"" + "jsonrpc" + "\":" + ("\"" + ("2.0" + "\"")) + "," +
               ("\"" + "id" + "\":" + Text(id) + "," + ("\"" + "result" + "\":" + ("false" + "}")))
  {
    hide Spell, MembersText, MembersOk, Lookup, StrValue, WellFormed, Text, TightKey, IsString;
    var last := LastMember(TightKey("result"), False, "");
    var middle := MoreMembers(TightKey("id"), id, "", last);
    var version := Str(Spell("2.0"));
    FalseText();
    SpellIsString("2.0");
    LastTight("result", False);
    TightMember("id", id, last);
    TightMember("jsonrpc", version, middle);
    assert [version] + [] == [version] && [id] + [] == [id];
  }

  lemma FalseText()
    ensures Text(False) == "false" && WellFormed(False)
  {
  }

  lemma AnswerShape(id: Value, members: string)
    requires members ==
             "\"" + "jsonrpc" + "\":" + ("\"" + ("2.0" + "\"")) + "," +
             ("\"" + "id" + "\":" + Text(id) + "," + ("\"" + "result" + "\":" + ("false" + "}")))
    ensures "{" + members == Answer(Text(id))
  {
    hide Text;
    PrefixShape();
    SuffixShape();
    Reassociate("\"" + "jsonrpc" + "\":" + ("\"" + ("2.0" + "\"")) + ",", "\"" + "id" + "\":", Text(id),
                "\"" + "result" + "\":" + ("false" + "}"));
  }

  lemma Reassociate(version: string, key: string, id: string, result: string)
    ensures "{" + (version + (key + id + "," + result)) == ("{" + version + key) + id + ("," + result)
  {
  }

  lemma PrefixShape()
    ensures REPLY_PREFIX == "{" + ("\"" + "jsonrpc" + "\":" + ("\"" + ("2.0" + "\"")) + ",") + ("\"" + "id" + "\":")
  {
    assert "\"" + "jsonrpc" + "\":" == "\"jsonrpc\":";
    assert "\"" + ("2.0" + "\"") == "\"2.0\"";
    assert "\"" + "id" + "\":" == "\"id\":";
  }

  lemma SuffixShape()
    ensures REPLY_SUFFIX == "," + ("\"" + "result" + "\":" + ("false" + "}"))
  {
    assert "\"" + "result" + "\":" == "\"result\":";
  }

  /** The id a local request carries, as a tree. */
  function IdTree(v: Value): Value
    requires Local(v) && IdOf(v).Some?
  {
    Lookup(v.members, "id")[0]
  }

  function IdTrees(vs: seq<Value>): seq<Value> {
    if vs == [] then []
    else (if vs[0].Object? then Lookup(vs[0].members, "id") else []) + IdTrees(vs[1..])
  }

  function Texts(vs: seq<Value>): seq<string> {
    seq(|vs|, k requires 0 <= k < |vs| => Text(vs[k]))
  }

  function AnswerItems(ids: seq<Value>): Items
    requires ids != []
  {
    if |ids| == 1 then LastItem("", AnswerTree(ids[0]), "")
    else MoreItems("", AnswerTree(ids[0]), "", AnswerItems(ids[1..]))
  }

  /** The answers separated by commas. */
  function Joined(ids: seq<string>): string
    requires ids != []
  {
    if |ids| == 1 then Answer(ids[0]) else Answer(ids[0]) + "," + Joined(ids[1..])
  }

  lemma {:induction false} JoinedSnoc(ids: seq<string>, id: string)
    requires ids != []
    ensures Joined(ids + [id]) == Joined(ids) + "," + Answer(id)
    decreases |ids|
  {
    hide Answer;
    assert (ids + [id])[1..] == ids[1..] + [id];
    if |ids| == 1 {
      assert ids[1..] + [id] == [id];
    } else {
      JoinedSnoc(ids[1..], id);
      var first, rest, last := Answer(ids[0]), Joined(ids[1..]), Answer(id);
      assert first + "," + (rest + "," + last) == (first + "," + rest) + "," + last;
    }
  }

  lemma {:induction false} OpenBatchJoined(ids: seq<string>)
    requires ids != []
    ensures OpenBatch(ids) == "[" + Joined(ids)
    decreases |ids|
  {
    hide Answer;
    var init, last := ids[..|ids| - 1], ids[|ids| - 1];
    assert ids == init + [last];
    if init == [] {
      assert OpenBatch(init) == "";
    } else {
      OpenBatchJoined(init);
      JoinedSnoc(init, last);
      assert ("[" + Joined(init)) + [','] + Answer(last) == "[" + (Joined(init) + "," + Answer(last));
    }
  }

  lemma {:induction false} AnswerItemsText(ids: seq<Value>)
    requires ids != [] && AllWellFormed(ids)
    ensures ItemsOk(AnswerItems(ids)) && ItemsText(AnswerItems(ids)) == Joined(Texts(ids)) + "]"
    ensures |Elements(AnswerItems(ids))| == |ids|
    ensures forall k :: 0 <= k < |ids| ==> Elements(AnswerItems(ids))[k] == AnswerTree(ids[k])
    decreases |ids|
  {
    hide Answer, Text, WellFormed, AnswerTree, ItemsText;
    AnswerTreeText(ids[0]);
    if |ids| > 1 {
      AnswerItemsText(ids[1..]);
      assert Texts(ids)[1..] == Texts(ids[1..]);
      MoreText(AnswerTree(ids[0]), AnswerItems(ids[1..]), Joined(Texts(ids[1..])));
    } else {
      LastText(AnswerTree(ids[0]));
    }
  }

  lemma MoreText(v: Value, rest: Items, restText: string)
    requires ItemsText(rest) == restText + "]"
    ensures ItemsText(MoreItems("", v, "", rest)) == Text(v) + "," + restText + "]"
  {
    assert ItemsText(MoreItems("", v, "", rest)) == "" + (Text(v) + ("" + ("," + (restText + "]"))));
  }

  lemma LastText(v: Value)
    ensures ItemsText(LastItem("", v, "")) == Text(v) + "]"
  {
    assert ItemsText(LastItem("", v, "")) == "" + (Text(v) + ("" + "]"));
  }

  lemma {:induction false} IdTreesText(vs: seq<Value>)
    requires AllLocal(vs) && AllWellFormed(vs)
    ensures Texts(IdTrees(vs)) == Ids(vs) && AllWellFormed(IdTrees(vs))
    decreases |vs|
  {
    hide Local, Text, WellFormed, Lookup;
    if vs != [] {
      IdTreesText(vs[1..]);
      OneId(vs[0]);
      if IdOf(vs[0]).Some? {
        IdTreeText(vs[0]);
      }
    }
  }

  lemma OneId(v: Value)
    requires Local(v)
    ensures v.Object? && |Lookup(v.members, "id")| == if IdOf(v).Some? then 1 else 0
  {
    hide Text, Lookup, KeysReadable, IsString, IsId;
  }

  lemma IdTreeText(v: Value)
    requires Local(v) && IdOf(v).Some? && WellFormed(v)
    ensures WellFormed(IdTree(v)) && Text(IdTree(v)) == IdOf(v).value
  {
    hide Text, Lookup, KeysReadable, IsString, IsId;
    ObjectMembersOk(v);
    LookupWellFormed(v.members, "id");
  }

  /**
   Round trip, for every body that gets a reply: the reply is a JSON text that parses back to one answer for each
   request with an id, in request order, with that id byte for byte. A batch gets an array, a single request an object.
   */
  lemma ReplyParsesBack(body: string)
    requires Classify(body).Reply?
    ensures ParseDocument(body).Some?
    ensures var v := ParseDocument(body).value;
            var w := ParseDocument(Classify(body).text);
            && w.Some?
            && if v.Array? then
                 && AllLocal(Elements(v.items)) && w.value.Array?
                 && var ids := Ids(Elements(v.items));
                 && |Elements(w.value.items)| == |ids|
                 && forall k :: 0 <= k < |ids| ==> IsAnswer(Elements(w.value.items)[k], ids[k])
               else
                 Local(v) && IdOf(v).Some? && IsAnswer(w.value, IdOf(v).value)
  {
    hide ParseDocument, Local, IdOf, WellFormed, Text, Answer, OpenBatch, IsAnswer, AnswerTree, Ids, Elements;
    var v := ParseDocument(body).value;
    DocumentIff(body, v);
    if v.Array? {
      BatchReply(v.items);
    } else {
      IdTreeText(v);
      AnswerTreeText(IdTree(v));
      TightDocument(AnswerTree(IdTree(v)));
    }
  }

  lemma BatchReply(items: Items)
    requires WellFormed(Array(items)) && BatchOutcome(Elements(items)).Reply?
    ensures AllLocal(Elements(items))
    ensures var ids := Ids(Elements(items));
            var w := ParseDocument(BatchOutcome(Elements(items)).text);
            && w.Some? && w.value.Array?
            && |Elements(w.value.items)| == |ids|
            && forall k :: 0 <= k < |ids| ==> IsAnswer(Elements(w.value.items)[k], ids[k])
  {
    hide ParseDocument, Local, ItemsText, Answer, OpenBatch, IsAnswer, AnswerTree, Ids, Elements, IdTrees, AnswerItems,
         Joined;
    var vs := Elements(items);
    ElementsWellFormed(items);
    IdTreesText(vs);
    var ids := IdTrees(vs);
    var answers := AnswerItems(ids);
    AnswerItemsText(ids);
    OpenBatchJoined(Ids(vs));
    assert ("[" + Joined(Ids(vs))) + "]" == "[" + (Joined(Ids(vs)) + "]");
    assert Text(Array(answers)) == BatchOutcome(vs).text;
    TightDocument(Array(answers));
    forall k | 0 <= k < |ids|
      ensures IsAnswer(Elements(answers)[k], Ids(vs)[k])
    {
      AnswerTreeText(ids[k]);
      assert Texts(ids)[k] == Text(ids[k]);
    }
  }

  // ---- Every id gets its reply ----

  /** A request with this id, printed without whitespace. */
  function CallTree(id: Value): Value {
    Object(MoreMembers(TightKey("jsonrpc"), Str(Spell("2.0")), "",
      MoreMembers(TightKey("method"), Str(Spell("eth_syncing")), "",
        MoreMembers(TightKey("params"), EmptyArray(""), "",
          LastMember(TightKey("id"), id, "")))))
  }

  lemma CallIsLocal(id: Value)
    requires WellFormed(id) && IsId(id)
    ensures WellFormed(CallTree(id)) && Local(CallTree(id)) && IdOf(CallTree(id)) == Some(Text(id))
  {
    hide Spell, MembersOk, MembersText, Lookup, StrValue, Text, TightKey, IsString, IsId, KeysReadable, WellFormed;
    var last := LastMember(TightKey("id"), id, "");
    var params := MoreMembers(TightKey("params"), EmptyArray(""), "", last);
    var call := MoreMembers(TightKey("method"), Str(Spell("eth_syncing")), "", params);
    SpellIsString("2.0");
    SpellIsString("eth_syncing");
    EmptyArrayWellFormed();
    LastTight("id", id);
    TightMember("params", EmptyArray(""), last);
    TightMember("method", Str(Spell("eth_syncing")), params);
    TightMember("jsonrpc", Str(Spell("2.0")), call);
    CallWellFormed(id);
  }

  lemma EmptyArrayWellFormed()
    ensures WellFormed(EmptyArray(""))
  {
  }

  lemma CallWellFormed(id: Value)
    ensures WellFormed(CallTree(id)) <==> MembersOk(CallTree(id).members)
  {
    hide MembersOk, Spell;
  }

  /** The converse of the round trip: there is a request for every id, and it gets exactly that id back. */
  lemma EveryIdAnswered(id: Value)
    requires WellFormed(id) && IsId(id)
    ensures Classify(Text(CallTree(id))) == Reply(Answer(Text(id)))
  {
    hide ParseDocument, WellFormed, Text, Answer, IsId, Local, CallTree, IdOf;
    CallIsLocal(id);
    TightDocument(CallTree(id));
    LocalIsObject(CallTree(id));
  }
}
