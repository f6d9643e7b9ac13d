/**
 The grammar of RFC 8259 (sections 2 to 6) in terms of characters: which texts are numbers, and that values printed with
 any whitespace between the tokens of an array or an object are recognised as that array or object.
 */
module JsonTexts {
  import opened Wrappers
  import opened Json
  import opened JsonGrammar
  import opened JsonObject
  import opened JsonString
  import opened Strings

  // ---- Words, whitespace and numbers ----

  lemma WordTexts()
    ensures ParseDocument("null") == Some(Null) && ParseDocument("true") == Some(True)
    ensures ParseDocument("false") == Some(False)
  {
    hide ParseDocument;
    TightDocument(Null);
    TightDocument(True);
    TightDocument(False);
  }

  /** Whitespace is space, tab, line feed and carriage return. */
  lemma BlankIff(t: string)
    ensures Blank(t) <==> forall k :: 0 <= k < |t| ==> t[k] in " \t\n\r"
  {
  }

  predicate DigitRun(t: string) {
    t != "" && forall k :: 0 <= k < |t| ==> t[k] in "0123456789"
  }

  /** A number: minus, an integer without leading zeros, a fraction, an exponent; all but the integer may be missing. */
  ghost predicate IsNumberText(t: string) {
    exists minus: string, whole: string, frac: string, exp: string ::
      && t == minus + (whole + (frac + exp)) && minus in ["", "-"]
      && whole != "" && DigitRun(whole) && (whole == "0" || whole[0] != '0')
      && (frac == "" || (frac[0] == '.' && DigitRun(frac[1..])))
      && (exp == "" || IsExponentText(exp))
  }

  ghost predicate IsExponentText(t: string) {
    exists mark: string, sign: string, digits: string ::
      t == mark + sign + digits && mark in ["e", "E"] && sign in ["", "+", "-"] && DigitRun(digits)
  }

  lemma DigitRunIff(t: string)
    ensures DigitRun(t) <==> t != "" && Digits(t)
  {
    assert forall c: char :: IsDigit(c) <==> c in "0123456789";
  }

  lemma ExponentIsText(e: Exponent)
    requires ExpOk(Some(e))
    ensures IsExponentText(ExpText(Some(e)))
  {
    hide Digits, DigitRun;
    DigitRunIff(e.digits);
    var mark: string := [e.mark];
    assert mark == "e" || mark == "E";
    assert ["e", "E"][0] == "e" && ["e", "E"][1] == "E";
    assert ["", "+", "-"][0] == "" && ["", "+", "-"][1] == "+" && ["", "+", "-"][2] == "-";
    assert ExpText(Some(e)) == mark + e.sign + e.digits;
  }

  /** The trees of numbers print exactly the number texts. */
  lemma NumberTextIff(t: string)
    ensures (exists n :: WellFormed(Number(n)) && Text(Number(n)) == t) <==> IsNumberText(t)
  {
    if n :| WellFormed(Number(n)) && Text(Number(n)) == t {
      NumberHasText(n);
    }
    if IsNumberText(t) {
      var n := NumberOfText(t);
      assert WellFormed(Number(n)) && Text(Number(n)) == t;
    }
  }

  lemma NumberHasText(n: Num)
    requires NumOk(n)
    ensures IsNumberText(NumText(n))
  {
    hide Digits, DigitRun, IsExponentText, ExpText, ExpOk;
    DigitRunIff(n.whole);
    assert n.whole[0] == '0' ==> n.whole == "0";
    assert ["", "-"][0] == "" && ["", "-"][1] == "-";
    var frac := FracText(n.frac);
    if n.frac.Some? {
      DigitRunIff(n.frac.value);
      assert frac[1..] == n.frac.value;
    }
    NoExponent();
    if n.exp.Some? {
      ExponentIsText(n.exp.value);
    }
    assert NumText(n) == MinusText(n.negative) + (n.whole + (frac + ExpText(n.exp)));
  }

  lemma NoExponent()
    ensures ExpText(None) == ""
  {
  }

  lemma NumberOfText(t: string) returns (n: Num)
    requires IsNumberText(t)
    ensures NumOk(n) && NumText(n) == t
  {
    hide Digits, DigitRun, IsExponentText, ExpText, ExpOk;
    var minus: string, whole: string, frac: string, exp: string :|
      && t == minus + (whole + (frac + exp)) && minus in ["", "-"]
      && whole != "" && DigitRun(whole) && (whole == "0" || whole[0] != '0')
      && (frac == "" || (frac[0] == '.' && DigitRun(frac[1..])))
      && (exp == "" || IsExponentText(exp));
    DigitRunIff(whole);
    var f: Option<string> := None;
    if frac != "" {
      DigitRunIff(frac[1..]);
      f := Some(frac[1..]);
      assert "." + frac[1..] == frac;
    }
    var e: Option<Exponent> := None;
    NoExponent();
    if exp != "" {
      var x := ExponentOfText(exp);
      e := Some(x);
    } else {
      NoExponentOk();
    }
    n := Num(minus == "-", whole, f, e);
  }

  lemma NoExponentOk()
    ensures ExpOk(None)
  {
  }

  lemma ExponentOfText(t: string) returns (e: Exponent)
    requires IsExponentText(t)
    ensures ExpOk(Some(e)) && ExpText(Some(e)) == t
  {
    hide Digits, DigitRun;
    var mark: string, sign: string, digits: string :|
      t == mark + sign + digits && mark in ["e", "E"] && sign in ["", "+", "-"] && DigitRun(digits);
    DigitRunIff(digits);
    assert mark == "e" || mark == "E";
    e := Exponent(mark[0], sign, digits);
    assert [mark[0]] == mark;
  }

  // ---- Arrays ----

  datatype Element = Element(before: string, value: Value, behind: string)

  predicate ElementsOk(es: seq<Element>) {
    forall k :: 0 <= k < |es| ==> Blank(es[k].before) && WellFormed(es[k].value) && Blank(es[k].behind)
  }

  function ElementTexts(es: seq<Element>): seq<string> {
    if es == [] then []
    else [es[0].before + (Text(es[0].value) + es[0].behind)] + ElementTexts(es[1..])
  }

  function ItemsOf(es: seq<Element>): Items
    requires es != []
  {
    if |es| == 1 then LastItem(es[0].before, es[0].value, es[0].behind)
    else MoreItems(es[0].before, es[0].value, es[0].behind, ItemsOf(es[1..]))
  }

  lemma {:induction false} ItemsOfText(es: seq<Element>)
    requires es != [] && ElementsOk(es)
    ensures ItemsOk(ItemsOf(es)) && ItemsText(ItemsOf(es)) == Join(ElementTexts(es), ",") + "]"
    ensures |Elements(ItemsOf(es))| == |es|
    ensures forall k :: 0 <= k < |es| ==> Elements(ItemsOf(es))[k] == es[k].value
    decreases |es|
  {
    hide Text, WellFormed, Blank;
    var e := es[0];
    if |es| == 1 {
      assert ElementTexts(es) == [e.before + (Text(e.value) + e.behind)];
      assert e.before + (Text(e.value) + (e.behind + "]")) == (e.before + (Text(e.value) + e.behind)) + "]";
    } else {
      var more := es[1..];
      ItemsOfText(more);
      assert ElementTexts(es)[1..] == ElementTexts(more);
      var tail := Join(ElementTexts(more), ",");
      assert e.before + (Text(e.value) + (e.behind + ("," + (tail + "]"))))
          == ((e.before + (Text(e.value) + e.behind)) + "," + tail) + "]";
    }
  }

  /** Values in brackets, separated by commas, with any whitespace around each: the array of these values. */
  lemma ArrayReadsBack(es: seq<Element>)
    requires es != [] && ElementsOk(es)
    ensures ParseDocument("[" + (Join(ElementTexts(es), ",") + "]")) == Some(Array(ItemsOf(es)))
    ensures |Elements(ItemsOf(es))| == |es|
    ensures forall k :: 0 <= k < |es| ==> Elements(ItemsOf(es))[k] == es[k].value
  {
    hide ParseDocument, ElementsOk, ItemsOf, ItemsOk, ItemsText, ElementTexts, Join, Elements;
    ItemsOfText(es);
    TightDocument(Array(ItemsOf(es)));
  }

  // ---- Objects ----

  datatype Member = Member(before: string, name: Chars, beforeColon: string, afterColon: string, value: Value,
                           behind: string)

  predicate MemberOk(m: Member) {
    && Blank(m.before) && CharsOk(m.name) && Blank(m.beforeColon) && Blank(m.afterColon) && WellFormed(m.value)
    && Blank(m.behind)
  }

  function KeyTextOf(m: Member): string {
    m.before + ("\"" + (CharsText(m.name) + ("\"" + (m.beforeColon + (":" + m.afterColon)))))
  }

  function MemberTexts(ms: seq<Member>): seq<string> {
    if ms == [] then []
    else [KeyTextOf(ms[0]) + (Text(ms[0].value) + ms[0].behind)] + MemberTexts(ms[1..])
  }

  function KeyOf(m: Member): Key {
    Key(m.before, m.name, m.beforeColon, m.afterColon)
  }

  function MembersOf(ms: seq<Member>): Members
    requires ms != []
  {
    if |ms| == 1 then LastMember(KeyOf(ms[0]), ms[0].value, ms[0].behind)
    else MoreMembers(KeyOf(ms[0]), ms[0].value, ms[0].behind, MembersOf(ms[1..]))
  }

  /** The values of the members whose name reads as `name`, in order. */
  function Named(ms: seq<Member>, name: string): seq<Value> {
    if ms == [] then []
    else (if StrValue(ms[0].name) == Some(name) then [ms[0].value] else []) + Named(ms[1..], name)
  }

  lemma KeyOfText(m: Member)
    requires MemberOk(m)
    ensures KeyText(KeyOf(m)) == KeyTextOf(m) && KeyOk(KeyOf(m)) && KeyName(KeyOf(m)) == StrValue(m.name)
  {
    hide CharsOk, CharsText, StrValue, Blank, WellFormed;
  }

  lemma Regroup(a: string, b: string, c: string, d: string)
    ensures a + (b + (c + d)) == (a + (b + c)) + d
  {
  }

  lemma RegroupTail(a: string, tail: string)
    ensures a + ("," + (tail + "}")) == (a + "," + tail) + "}"
  {
  }

  lemma MemberTextsUnfold(ms: seq<Member>)
    requires ms != []
    ensures var first := KeyTextOf(ms[0]) + (Text(ms[0].value) + ms[0].behind);
            Join(MemberTexts(ms), ",") == if |ms| == 1 then first else first + "," + Join(MemberTexts(ms[1..]), ",")
  {
    hide Text, KeyTextOf;
    var first := KeyTextOf(ms[0]) + (Text(ms[0].value) + ms[0].behind);
    assert MemberTexts(ms) == [first] + MemberTexts(ms[1..]);
    if |ms| == 1 {
      assert MemberTexts(ms[1..]) == [];
    } else {
      assert MemberTexts(ms)[1..] == MemberTexts(ms[1..]);
      assert |MemberTexts(ms[1..])| > 0;
    }
  }

  lemma {:induction false} MembersOfText(ms: seq<Member>)
    requires ms != [] && forall k :: 0 <= k < |ms| ==> MemberOk(ms[k])
    ensures MembersOk(MembersOf(ms)) && MembersText(MembersOf(ms)) == Join(MemberTexts(ms), ",") + "}"
    decreases |ms|
  {
    hide Text, WellFormed, Blank, KeyText, KeyTextOf, KeyOk, KeyOf, MemberOk, MembersText, MembersOk, MemberTexts, Join;
    var m := ms[0];
    KeyOfText(m);
    MemberParts(m);
    MembersUnfold(MembersOf(ms));
    MemberTextsUnfold(ms);
    if |ms| == 1 {
      Regroup(KeyTextOf(m), Text(m.value), m.behind, "}");
    } else {
      MembersOfText(ms[1..]);
      var tail := Join(MemberTexts(ms[1..]), ",");
      Regroup(KeyTextOf(m), Text(m.value), m.behind, "," + (tail + "}"));
      RegroupTail((KeyTextOf(m) + (Text(m.value) + m.behind)), tail);
    }
  }

  lemma {:induction false} MembersOfNames(ms: seq<Member>)
    requires ms != []
    ensures forall name :: Lookup(MembersOf(ms), name) == Named(ms, name)
    ensures KeysReadable(MembersOf(ms)) <==> forall k :: 0 <= k < |ms| ==> StrValue(ms[k].name).Some?
    decreases |ms|
  {
    hide StrValue;
    if |ms| == 1 {
      assert ms[1..] == [];
    } else {
      MembersOfNames(ms[1..]);
      assert forall k :: 0 <= k < |ms[1..]| ==> ms[1..][k] == ms[k + 1];
    }
  }

  lemma MemberParts(m: Member)
    requires MemberOk(m)
    ensures WellFormed(m.value) && Blank(m.behind)
  {
    hide WellFormed, Blank, CharsOk;
  }

  /**
   Members in braces, separated by commas, with any whitespace around each of their tokens: the object of these members,
   found by what their names read as.
   */
  lemma ObjectReadsBack(ms: seq<Member>)
    requires ms != [] && forall k :: 0 <= k < |ms| ==> MemberOk(ms[k])
    ensures ParseDocument("{" + (Join(MemberTexts(ms), ",") + "}")) == Some(Object(MembersOf(ms)))
    ensures forall name :: Lookup(MembersOf(ms), name) == Named(ms, name)
    ensures KeysReadable(MembersOf(ms)) <==> forall k :: 0 <= k < |ms| ==> StrValue(ms[k].name).Some?
  {
    hide ParseDocument, MembersOf, MembersOk, MembersText, MemberTexts, MemberOk, Join, Lookup, Named,
         KeysReadable, StrValue;
    MembersOfText(ms);
    MembersOfNames(ms);
    ObjectShape(MembersOf(ms));
    TightDocument(Object(MembersOf(ms)));
  }

  /** Nothing between brackets or braces but whitespace. */
  lemma EmptyReadsBack(pad: string)
    requires Blank(pad)
    ensures ParseDocument("[" + (pad + "]")) == Some(EmptyArray(pad))
    ensures ParseDocument("{" + (pad + "}")) == Some(EmptyObject(pad))
  {
    hide ParseDocument, Blank;
    TightDocument(EmptyArray(pad));
    TightDocument(EmptyObject(pad));
  }
}
