/** Objects and arrays as their readers see them, and objects printed without whitespace or escapes. */
module JsonObject {
  import opened Wrappers
  import opened Json
  import opened JsonGrammar
  import opened JsonString

  // ---- Reading ----

  function KeyName(k: Key): Option<string> {
    StrValue(k.name)
  }

  /** The values of all members called `name`, in order. */
  function Lookup(ms: Members, name: string): seq<Value> {
    (if KeyName(ms.key) == Some(name) then [ms.value] else [])
    + (if ms.MoreMembers? then Lookup(ms.rest, name) else [])
  }

  predicate KeysReadable(ms: Members) {
    KeyName(ms.key).Some? && (ms.MoreMembers? ==> KeysReadable(ms.rest))
  }

  predicate IsString(v: Value, text: string) {
    v.Str? && StrValue(v.chars) == Some(text)
  }

  function Elements(items: Items): seq<Value> {
    [items.value] + (if items.MoreItems? then Elements(items.rest) else [])
  }

  predicate AllWellFormed(vs: seq<Value>) {
    forall k :: 0 <= k < |vs| ==> WellFormed(vs[k])
  }

  lemma {:induction false} LookupWellFormed(ms: Members, name: string)
    requires MembersOk(ms)
    ensures AllWellFormed(Lookup(ms, name))
    decreases ms
  {
    hide WellFormed, KeyOk, KeyName;
    if ms.MoreMembers? {
      LookupWellFormed(ms.rest, name);
    }
  }

  lemma {:induction false} ElementsWellFormed(items: Items)
    requires ItemsOk(items)
    ensures AllWellFormed(Elements(items))
    decreases items
  {
    hide WellFormed;
    if items.MoreItems? {
      ElementsWellFormed(items.rest);
    }
  }

  // ---- Printing ----

  /** The string that spells `t` without escapes. */
  function Spell(t: string): Chars {
    if t == "" then End else Chars(Plain(t[0]), Spell(t[1..]))
  }

  predicate Simple(t: string) {
    forall k :: 0 <= k < |t| ==> IsPlain(t[k]) && t[k] as int < 0x80
  }

  lemma {:induction false} SpellText(t: string)
    requires Simple(t)
    ensures CharsOk(Spell(t)) && CharsText(Spell(t)) == t
    decreases |t|
  {
    if t != "" {
      SpellText(t[1..]);
      assert t == [t[0]] + t[1..];
    }
  }

  lemma SpellValue(t: string)
    requires Simple(t)
    ensures CharsOk(Spell(t)) && CharsText(Spell(t)) == t && StrValue(Spell(t)) == Some(t)
  {
    SpellText(t);
    DecodePlain(Spell(t));
    AsciiIsUtf8(t);
  }

  function BareKey(cs: Chars): Key {
    Key("", cs, "", "")
  }

  lemma BareKeyText(cs: Chars, name: string)
    requires CharsOk(cs) && StrValue(cs) == Some(name)
    ensures KeyText(BareKey(cs)) == "\"" + CharsText(cs) + "\":"
    ensures KeyOk(BareKey(cs)) && KeyName(BareKey(cs)) == Some(name)
  {
    hide StrValue;
  }

  /** A member in front of others, its key spelled in any way. */
  lemma BareMember(cs: Chars, name: string, v: Value, rest: Members)
    requires CharsOk(cs) && StrValue(cs) == Some(name) && WellFormed(v)
    ensures var m := MoreMembers(BareKey(cs), v, "", rest);
            && MembersText(m) == "\"" + CharsText(cs) + "\":" + Text(v) + "," + MembersText(rest)
            && (MembersOk(m) <==> MembersOk(rest)) && (KeysReadable(m) <==> KeysReadable(rest))
            && Lookup(m, name) == [v] + Lookup(rest, name)
            && (forall other :: other != name ==> Lookup(m, other) == Lookup(rest, other))
  {
    hide KeyText, KeyOk, KeyName, Text, WellFormed, BareKey, CharsOk, StrValue;
    BareKeyText(cs, name);
    var m := MoreMembers(BareKey(cs), v, "", rest);
    assert MembersText(m) == KeyText(m.key) + (Text(v) + ("" + ("," + MembersText(rest))));
    forall other | other != name
      ensures Lookup(m, other) == Lookup(rest, other)
    {
      assert Lookup(m, other) == [] + Lookup(rest, other);
    }
  }

  lemma BareLast(cs: Chars, name: string, v: Value)
    requires CharsOk(cs) && StrValue(cs) == Some(name) && WellFormed(v)
    ensures var m := LastMember(BareKey(cs), v, "");
            && MembersText(m) == "\"" + CharsText(cs) + "\":" + (Text(v) + "}") && MembersOk(m) && KeysReadable(m)
            && Lookup(m, name) == [v]
            && (forall other :: other != name ==> Lookup(m, other) == [])
  {
    hide KeyText, KeyOk, KeyName, Text, WellFormed, BareKey, CharsOk, StrValue;
    BareKeyText(cs, name);
    var m := LastMember(BareKey(cs), v, "");
    assert MembersText(m) == KeyText(m.key) + (Text(v) + ("" + "}"));
  }

  function TightKey(name: string): Key {
    BareKey(Spell(name))
  }

  lemma TightMember(name: string, v: Value, rest: Members)
    requires Simple(name) && WellFormed(v)
    ensures var m := MoreMembers(TightKey(name), v, "", rest);
            && MembersText(m) == "\"" + name + "\":" + Text(v) + "," + MembersText(rest)
            && (MembersOk(m) <==> MembersOk(rest)) && (KeysReadable(m) <==> KeysReadable(rest))
            && Lookup(m, name) == [v] + Lookup(rest, name)
            && (forall other :: other != name ==> Lookup(m, other) == Lookup(rest, other))
  {
    hide Spell, StrValue, CharsOk, CharsText, MembersText, MembersOk, KeysReadable, Lookup, Text, WellFormed;
    SpellValue(name);
    BareMember(Spell(name), name, v, rest);
  }

  lemma LastTight(name: string, v: Value)
    requires Simple(name) && WellFormed(v)
    ensures var m := LastMember(TightKey(name), v, "");
            && MembersText(m) == "\"" + name + "\":" + (Text(v) + "}") && MembersOk(m) && KeysReadable(m)
            && Lookup(m, name) == [v]
            && (forall other :: other != name ==> Lookup(m, other) == [])
  {
    hide Spell, StrValue, CharsOk, CharsText, MembersText, MembersOk, KeysReadable, Lookup, Text, WellFormed;
    SpellValue(name);
    BareLast(Spell(name), name, v);
  }

  lemma ObjectShape(ms: Members)
    ensures Text(Object(ms)) == "{" + MembersText(ms) && (WellFormed(Object(ms)) <==> MembersOk(ms))
  {
    hide MembersText, MembersOk;
  }

  lemma SpellIsString(t: string)
    requires Simple(t)
    ensures IsString(Str(Spell(t)), t) && WellFormed(Str(Spell(t))) && Text(Str(Spell(t))) == "\"" + (t + "\"")
  {
    hide StrValue;
    SpellValue(t);
  }

  lemma IntroDocument(s: string, pre: string, v: Value, post: string)
    requires Blank(pre) && Blank(post) && s == pre + (Text(v) + post)
    ensures IsDocument(s, v)
  {
  }

  lemma TightDocument(v: Value)
    requires WellFormed(v)
    ensures ParseDocument(Text(v)) == Some(v)
  {
    hide ParseDocument, WellFormed, Text;
    IntroDocument(Text(v), "", v, "");
    DocumentIff(Text(v), v);
  }
}
