/**
 The streaming reader agrees with parse-then-judge: on every byte string and at every index, `ReadRequest`
 succeeds exactly when a whole value stands there and that value is a local request.
 */
module RpcStreamProofs {
  import opened Wrappers
  import opened Json
  import opened JsonObject
  import opened JsonGrammar
  import opened JsonString
  import opened Rpc
  import opened RpcStream
  import opened Strings

  // ---- The textual tests mean what they stand for ----

  lemma TrimAsciiBlank(t: string)
    ensures TrimAscii(t) == "" <==> All(t, IsAsciiWs)
    ensures t != "" && !IsAsciiWs(t[0]) && !IsAsciiWs(t[|t| - 1]) ==> TrimAscii(t) == t
  {
    TrimBlank(t, IsAsciiWs);
    if Tight(t, IsAsciiWs) {
      TrimTight(t, IsAsciiWs);
    }
  }

  lemma TrimAsciiEmptyBrackets(raw: string)
    requires |raw| >= 2 && raw[0] == '[' && raw[|raw| - 1] == ']'
    ensures EmptyParams(raw) <==> All(raw[1..|raw| - 1], IsAsciiWs)
  {
    TrimAsciiBlank(raw);
    TrimAsciiBlank(raw[1..|raw| - 1]);
  }

  /** A well-formed value never ends in whitespace of any kind. */
  lemma {:induction false} LastChar(v: Value)
    requires WellFormed(v)
    ensures |Text(v)| > 0 && !IsAsciiWs(Text(v)[|Text(v)| - 1])
    ensures v.Array? || v.EmptyArray? ==> Text(v)[|Text(v)| - 1] == ']' && |Text(v)| >= 2
  {
    hide CharsText, CharsOk, ItemsText, MembersText, ItemsOk, MembersOk, NumText, NumOk, Blank;
    match v
    case Null =>
    case True =>
    case False =>
    case Number(n) => NumLast(n);
    case Str(chars) => assert Text(v) == ("\"" + CharsText(chars)) + "\"";
    case EmptyArray(pad) => assert Text(v) == ("[" + pad) + "]";
    case EmptyObject(pad) => assert Text(v) == ("{" + pad) + "}";
    case Array(items) => ItemsLast(items);
    case Object(members) => MembersLast(members);
  }

  lemma NumLast(n: Num)
    requires NumOk(n)
    ensures |NumText(n)| > 0 && IsDigit(NumText(n)[|NumText(n)| - 1])
  {
    if n.exp.Some? {
      var e := n.exp.value;
      assert NumText(n) == (MinusText(n.negative) + n.whole + FracText(n.frac) + [e.mark] + e.sign) + e.digits;
    } else if n.frac.Some? {
      assert NumText(n) == (MinusText(n.negative) + n.whole + ".") + n.frac.value;
    } else {
      assert NumText(n) == MinusText(n.negative) + n.whole;
    }
  }

  lemma {:induction false} ItemsLast(items: Items)
    ensures |ItemsText(items)| > 0 && ItemsText(items)[|ItemsText(items)| - 1] == ']'
    decreases items
  {
    if items.MoreItems? {
      ItemsLast(items.rest);
    }
  }

  lemma {:induction false} MembersLast(members: Members)
    ensures |MembersText(members)| > 0 && MembersText(members)[|MembersText(members)| - 1] == '}'
    decreases members
  {
    if members.MoreMembers? {
      MembersLast(members.rest);
    }
  }

  lemma EmptyArrayPasses(pad: string)
    requires Blank(pad)
    ensures EmptyParams("[" + (pad + "]"))
  {
    hide EmptyParams;
    var raw := "[" + (pad + "]");
    assert raw[1..|raw| - 1] == pad;
    TrimAsciiEmptyBrackets(raw);
  }

  lemma FullArrayFails(items: Items)
    requires ItemsOk(items)
    ensures !EmptyParams(Text(Array(items)))
  {
    hide EmptyParams, ItemsOk;
    var v := Array(items);
    var raw := Text(v);
    var k := 1 + |items.before|;
    ArrayInk(items);
    LastChar(v);
    assert raw[1..|raw| - 1][k - 1] == raw[k];
    TrimAsciiEmptyBrackets(raw);
  }

  lemma BracketNeeded(raw: string)
    requires raw != "" && raw[0] != '[' && !IsAsciiWs(raw[0]) && !IsAsciiWs(raw[|raw| - 1])
    ensures !EmptyParams(raw)
  {
    TrimAsciiBlank(raw);
  }

  /** `empty_params` accepts exactly the empty array, however much whitespace it holds. */
  lemma EmptyParamsIff(v: Value)
    requires WellFormed(v)
    ensures EmptyParams(Text(v)) <==> v.EmptyArray?
  {
    hide EmptyParams, CharsText, MembersText, ItemsText, NumText;
    if v.EmptyArray? {
      EmptyArrayPasses(v.pad);
    } else if v.Array? {
      FullArrayFails(v.items);
    } else {
      FirstChar(v);
      LastChar(v);
      InkyFirst(v);
      BracketNeeded(Text(v));
    }
  }

  /** A non-empty array shows the first character of its first element before its closing bracket. */
  lemma ArrayInk(items: Items)
    requires ItemsOk(items)
    ensures var raw := Text(Array(items));
            var k := 1 + |items.before|;
            k < |raw| - 1 && !IsAsciiWs(raw[k])
  {
    hide Starts, WellFormed, NumText, CharsText;
    var raw := Text(Array(items));
    var k := 1 + |items.before|;
    var tail := if items.LastItem? then items.after + "]" else items.after + ("," + ItemsText(items.rest));
    InkyFirst(items.value);
    assert ItemsText(items) == items.before + (Text(items.value) + tail);
    assert raw == ("[" + items.before) + (Text(items.value) + tail);
    assert raw[k] == Text(items.value)[0];
  }

  lemma InkyFirst(v: Value)
    requires WellFormed(v)
    ensures |Text(v)| > 0 && !IsAsciiWs(Text(v)[0])
  {
    FirstChar(v);
  }

  /** `present_id` accepts exactly strings, numbers and null. */
  lemma PresentIdIff(v: Value)
    requires WellFormed(v)
    ensures PresentId(Text(v)) <==> v.Str? || v.Number? || v.Null?
  {
    FirstChar(v);
  }

  lemma EmptyArrayIsUtf8(pad: string)
    requires Blank(pad)
    ensures ValidUtf8(Text(EmptyArray(pad)))
  {
    AsciiIsUtf8(Text(EmptyArray(pad)));
  }

  // ---- Reading a member is judging it ----

  /** What `ReadField` does to the fields, said of a parsed value. */
  function Absorb(f: Fields, name: string, v: Value): Option<Fields> {
    if name == "jsonrpc" then
      if !f.sawVersion && IsString(v, "2.0") then Some(f.(sawVersion := true)) else None
    else if name == "method" then
      if !f.sawMethod && IsString(v, "eth_syncing") then Some(f.(sawMethod := true)) else None
    else if name == "params" then
      if !f.sawParams && v.EmptyArray? then Some(f.(sawParams := true)) else None
    else if name == "id" then
      if f.id.None? && IsId(v) then Some(f.(id := Some(Text(v)))) else None
    else Some(f)
  }

  function AbsorbAll(f: Fields, ms: Members): Option<Fields>
    decreases ms
  {
    match KeyName(ms.key)
    case None => None
    case Some(name) =>
      match Absorb(f, name, ms.value)
      case None => None
      case Some(f') => if ms.MoreMembers? then AbsorbAll(f', ms.rest) else Some(f')
  }

  lemma RawIsText(s: string, i: nat)
    requires i <= |s| && ParseValue(s, i).Done?
    ensures var r := ParseValue(s, i); Slice(s, i, r.end) == Text(r.value) && WellFormed(r.value)
  {
    hide At, Slice, Text, ParseValue, WellFormed;
    ValueSound(s, i);
    SliceExact(s, i, Text(ParseValue(s, i).value));
  }

  lemma ReadStrAgrees(s: string, i: nat)
    requires i <= |s|
    ensures var j := SkipWs(s, i);
            ReadStr(s, i) ==
            match ParseValue(s, j)
            case Fail => Fail
            case Done(v, k) =>
              if v.Str? && StrValue(v.chars).Some? then Done(StrValue(v.chars).value, k) else Fail
  {
    hide StrValue, ParseChars, SkipWs, ParseItems, ParseMembers, ParseNum;
  }

  lemma ReadFieldAgrees(s: string, i: nat, name: string, f: Fields)
    requires i <= |s|
    ensures ReadField(s, i, name, f) ==
            match ParseValue(s, SkipWs(s, i))
            case Fail => Fail
            case Done(v, k) => match Absorb(f, name, v) case None => Fail case Some(f') => Done(f', k)
  {
    hide StrValue, ParseValue, SkipWs, Slice, Text, WellFormed, ReadStr, PresentId, EmptyParams, ValidUtf8;
    ReadStrAgrees(s, i);
    var j := SkipWs(s, i);
    if ParseValue(s, j).Done? {
      var v := ParseValue(s, j).value;
      RawIsText(s, j);
      PresentIdIff(v);
      EmptyParamsIff(v);
      if v.EmptyArray? {
        WellFormedPad(v);
        EmptyArrayIsUtf8(v.pad);
      }
    }
  }

  lemma WellFormedPad(v: Value)
    requires WellFormed(v) && v.EmptyArray?
    ensures Blank(v.pad)
  {
  }

  /** Reading a key as a string and then a colon is parsing the key and decoding its name. */
  lemma KeyAgrees(s: string, i: nat)
    requires i <= |s|
    ensures var r := ReadStr(s, i);
            match ParseKey(s, i)
            case Fail => r.Fail? || !Peek(s, SkipWs(s, r.end), ':')
            case Done(key, e) =>
              if KeyName(key).None? then r.Fail?
              else
                && r.Done? && r.value == KeyName(key).value && Peek(s, SkipWs(s, r.end), ':')
                && e == SkipWs(s, SkipWs(s, r.end) + 1)
  {
    hide StrValue, ParseChars, SkipWs, Slice;
  }

  lemma {:induction false} ReadMembersAgrees(s: string, i: nat, f: Fields)
    requires i <= |s|
    ensures ReadMembers(s, i, f) ==
            match ParseMembers(s, i)
            case Fail => Fail
            case Done(ms, k) => match AbsorbAll(f, ms) case None => Fail case Some(f') => Done(f', k)
    decreases |s| - i
  {
    hide ReadStr, KeyName, ParseKey, ParseValue, SkipWs, Slice, ReadField, Absorb;
    KeyAgrees(s, i);
    match ReadStr(s, i)
    case Fail =>
    case Done(name, k) =>
      var c := SkipWs(s, k);
      if Peek(s, c, ':') {
        ReadFieldAgrees(s, c + 1, name, f);
        match ReadField(s, c + 1, name, f)
        case Fail =>
        case Done(f', e) =>
          var n := SkipWs(s, e);
          if Peek(s, n, ',') {
            ReadMembersAgrees(s, n + 1, f');
          }
      }
  }

  // ---- Judging member by member is judging the object ----

  /** A field may still appear `n` times: once if not yet seen, else never. */
  function Room(seen: bool): nat {
    if seen then 0 else 1
  }

  /** What the members still to come must look like for the fields seen so far. */
  ghost predicate Fits(f: Fields, ms: Members) {
    && KeysReadable(ms)
    && |Lookup(ms, "jsonrpc")| <= Room(f.sawVersion)
    && |Lookup(ms, "method")| <= Room(f.sawMethod)
    && |Lookup(ms, "params")| <= Room(f.sawParams)
    && |Lookup(ms, "id")| <= Room(f.id.Some?)
    && (forall v :: v in Lookup(ms, "jsonrpc") ==> IsString(v, "2.0"))
    && (forall v :: v in Lookup(ms, "method") ==> IsString(v, "eth_syncing"))
    && (forall v :: v in Lookup(ms, "params") ==> v.EmptyArray?)
    && (forall v :: v in Lookup(ms, "id") ==> IsId(v))
  }

  function Collect(f: Fields, ms: Members): Fields {
    Fields(
      f.sawVersion || Lookup(ms, "jsonrpc") != [],
      f.sawMethod || Lookup(ms, "method") != [],
      f.sawParams || Lookup(ms, "params") != [],
      if f.id.Some? || Lookup(ms, "id") == [] then f.id else Some(Text(Lookup(ms, "id")[0])))
  }

  lemma LookupHead(ms: Members, name: string)
    requires KeyName(ms.key).Some?
    ensures KeyName(ms.key).value == name ==>
              Lookup(ms, name) == [ms.value] + (if ms.MoreMembers? then Lookup(ms.rest, name) else [])
    ensures KeyName(ms.key).value != name ==>
              Lookup(ms, name) == if ms.MoreMembers? then Lookup(ms.rest, name) else []
  {
  }

  /** One member of what fits: the fields it changes, and what then has to fit. */
  lemma FitsHead(f: Fields, ms: Members)
    requires KeyName(ms.key).Some?
    ensures var f' := Absorb(f, KeyName(ms.key).value, ms.value);
            && (Fits(f, ms) <==> f'.Some? && (ms.MoreMembers? ==> Fits(f'.value, ms.rest)))
            && (Fits(f, ms) ==> Collect(f, ms) == if ms.MoreMembers? then Collect(f'.value, ms.rest) else f'.value)
  {
    hide KeyName, IsString, IsId, Text, Lookup;
    LookupHead(ms, "jsonrpc");
    LookupHead(ms, "method");
    LookupHead(ms, "params");
    LookupHead(ms, "id");
  }

  lemma {:induction false} AbsorbAllIff(f: Fields, ms: Members)
    ensures AbsorbAll(f, ms).Some? <==> Fits(f, ms)
    ensures Fits(f, ms) ==> AbsorbAll(f, ms) == Some(Collect(f, ms))
    decreases ms
  {
    hide KeyName, IsString, IsId, Text, Fits, Collect, Absorb;
    if KeyName(ms.key).Some? {
      var name := KeyName(ms.key).value;
      FitsHead(f, ms);
      if Absorb(f, name, ms.value).Some? && ms.MoreMembers? {
        AbsorbAllIff(Absorb(f, name, ms.value).value, ms.rest);
      }
    } else {
      FitsReadable(f, ms);
    }
  }

  lemma FitsReadable(f: Fields, ms: Members)
    ensures Fits(f, ms) ==> KeyName(ms.key).Some?
  {
  }

  /**
   The streaming reader is parse-then-judge, at every index of every byte string: it succeeds exactly when a
   value that is a local request stands there, and it yields that request's id and end.
   */
  lemma ReadRequestAgrees(s: string, i: nat)
    requires i <= |s|
    ensures ReadRequest(s, i) ==
            match ParseValue(s, SkipWs(s, i))
            case Fail => Fail
            case Done(v, k) => if Local(v) then Done(IdOf(v), k) else Fail
  {
    hide KeyName, IsString, IsId, Text, SkipWs, ParseMembers, ParseItems, ParseNum, ParseChars, ReadMembers, AbsorbAll,
         Lookup, KeysReadable;
    var j := SkipWs(s, i);
    if Peek(s, j, '{') {
      var start := Fields(false, false, false, None);
      ReadMembersAgrees(s, j + 1, start);
      if ParseMembers(s, j + 1).Done? {
        AbsorbAllIff(start, ParseMembers(s, j + 1).value);
      }
    }
  }
}
