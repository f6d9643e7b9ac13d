/**
 The recogniser of Json.dfy accepts exactly the texts of well-formed trees, and returns that tree.
 Both directions are proved piece by piece with `At`, which says where a text occurs.
 */
module JsonGrammar {
  import opened Wrappers
  import opened Json

  lemma AtConcat(s: string, i: nat, a: string, b: string)
    ensures At(s, i, a + b) <==> At(s, i, a) && At(s, i + |a|, b)
  {
    if At(s, i, a + b) {
      assert forall k :: 0 <= k < |a| ==> a[k] == (a + b)[k];
      assert forall k :: 0 <= k < |b| ==> b[k] == (a + b)[|a| + k];
    }
    if At(s, i, a) && At(s, i + |a|, b) {
      forall k | 0 <= k < |a + b| ensures s[i + k] == (a + b)[k] {
        if k >= |a| {
          assert s[i + |a| + (k - |a|)] == b[k - |a|];
        }
      }
    }
  }

  lemma AtOne(s: string, i: nat, c: char)
    ensures At(s, i, [c]) <==> Peek(s, i, c)
  {
    assert At(s, i, [c]) ==> s[i + 0] == [c][0];
  }

  lemma AtSlice(s: string, i: nat, j: nat)
    requires i <= j <= |s|
    ensures At(s, i, Slice(s, i, j)) && |Slice(s, i, j)| == j - i
  {
  }

  lemma SliceExact(s: string, i: nat, t: string)
    requires At(s, i, t)
    ensures i + |t| <= |s| && Slice(s, i, i + |t|) == t
    ensures t != "" ==> s[i] == t[0]
  {
    assert t != "" ==> s[i + 0] == t[0];
  }

  // ---- Runs ----

  lemma {:induction false} SkipWsExact(s: string, i: nat, pad: string)
    requires At(s, i, pad) && Blank(pad)
    requires i + |pad| < |s| ==> !IsWs(s[i + |pad|])
    ensures i + |pad| <= |s| && SkipWs(s, i) == i + |pad| && Slice(s, i, i + |pad|) == pad
    decreases |pad|
  {
    SliceExact(s, i, pad);
    if pad != "" {
      assert forall k :: 0 <= k < |pad| - 1 ==> s[i + (k + 1)] == pad[k + 1] == pad[1..][k];
      SkipWsExact(s, i + 1, pad[1..]);
    }
  }

  lemma {:induction false} SkipDigitsExact(s: string, i: nat, ds: string)
    requires At(s, i, ds) && Digits(ds)
    requires i + |ds| < |s| ==> !IsDigit(s[i + |ds|])
    ensures i + |ds| <= |s| && SkipDigits(s, i) == i + |ds| && Slice(s, i, i + |ds|) == ds
    decreases |ds|
  {
    SliceExact(s, i, ds);
    if ds != "" {
      assert forall k :: 0 <= k < |ds| - 1 ==> s[i + (k + 1)] == ds[k + 1] == ds[1..][k];
      SkipDigitsExact(s, i + 1, ds[1..]);
    }
  }

  // ---- Numbers ----

  /** Exactly the characters that would continue the number `n` are missing at `j`. */
  predicate NumStops(s: string, j: nat, n: Num) {
    j < |s| ==>
      && !IsDigit(s[j])
      && (n.frac.None? && n.exp.None? ==> s[j] != '.')
      && (n.exp.None? ==> s[j] != 'e' && s[j] != 'E')
  }

  lemma FracSound(s: string, i: nat)
    requires i <= |s| && ParseFrac(s, i).Done?
    ensures var r := ParseFrac(s, i);
            FracOk(r.value) && At(s, i, FracText(r.value)) && r.end == i + |FracText(r.value)|
  {
    hide At, Slice, Digits;
    var r := ParseFrac(s, i);
    AtSlice(s, i, i);
    if r.value.Some? {
      AtSlice(s, i + 1, r.end);
      AtOne(s, i, '.');
      AtConcat(s, i, ".", r.value.value);
    }
  }

  lemma ExpSound(s: string, i: nat)
    requires i <= |s| && ParseExp(s, i).Done?
    ensures var r := ParseExp(s, i);
            ExpOk(r.value) && At(s, i, ExpText(r.value)) && r.end == i + |ExpText(r.value)|
  {
    hide At, Digits;
    var r := ParseExp(s, i);
    AtSlice(s, i, i);
    if r.value.Some? {
      var e := r.value.value;
      var a := i + 1 + |e.sign|;
      AtSlice(s, i + 1, a);
      AtSlice(s, a, r.end);
      AtOne(s, i, e.mark);
      AtConcat(s, i, [e.mark], e.sign);
      AtConcat(s, i, [e.mark] + e.sign, e.digits);
    }
  }

  lemma NumSound(s: string, i: nat)
    requires i <= |s| && ParseNum(s, i).Done?
    ensures var r := ParseNum(s, i);
            NumOk(r.value) && At(s, i, NumText(r.value)) && r.end == i + |NumText(r.value)|
  {
    hide At, Slice, Digits, FracText, ExpText, FracOk, ExpOk;
    var n := ParseNum(s, i).value;
    var a := if n.negative then i + 1 else i;
    var b := SkipDigits(s, a);
    AtOne(s, i, '-');
    AtSlice(s, i, i);
    AtSlice(s, a, b);
    FracSound(s, b);
    ExpSound(s, ParseFrac(s, b).end);
    AtConcat(s, b, FracText(n.frac), ExpText(n.exp));
    AtConcat(s, a, n.whole, FracText(n.frac) + ExpText(n.exp));
    AtConcat(s, i, MinusText(n.negative), n.whole + (FracText(n.frac) + ExpText(n.exp)));
  }

  lemma FracComplete(s: string, i: nat, f: Option<string>)
    requires FracOk(f) && At(s, i, FracText(f))
    requires var j := i + |FracText(f)|; j < |s| ==> !IsDigit(s[j]) && (f.None? ==> s[j] != '.')
    ensures i + |FracText(f)| <= |s| && ParseFrac(s, i) == Done(f, i + |FracText(f)|)
  {
    hide At, Slice, Digits;
    SliceExact(s, i, FracText(f));
    if f.Some? {
      AtConcat(s, i, ".", f.value);
      AtOne(s, i, '.');
      SkipDigitsExact(s, i + 1, f.value);
    }
  }

  lemma ExpComplete(s: string, i: nat, e: Option<Exponent>)
    requires ExpOk(e) && At(s, i, ExpText(e))
    requires var j := i + |ExpText(e)|; j < |s| ==> !IsDigit(s[j]) && (e.None? ==> s[j] != 'e' && s[j] != 'E')
    ensures i + |ExpText(e)| <= |s| && ParseExp(s, i) == Done(e, i + |ExpText(e)|)
  {
    hide At, Slice;
    SliceExact(s, i, ExpText(e));
    if e.Some? {
      var x := e.value;
      var a := i + 1 + |x.sign|;
      assert IsDigit(x.digits[0]);
      AtConcat(s, i, [x.mark] + x.sign, x.digits);
      AtConcat(s, i, [x.mark], x.sign);
      SliceExact(s, i + 1, x.sign);
      SliceExact(s, a, x.digits);
      SkipDigitsExact(s, a, x.digits);
    }
  }

  /** Each piece of a number begins with its own kind of character. */
  lemma NumHeads(n: Num)
    requires NumOk(n)
    ensures IsDigit(n.whole[0])
    ensures if n.frac.Some? then FracText(n.frac) != "" && FracText(n.frac)[0] == '.' else FracText(n.frac) == ""
    ensures if n.exp.Some? then ExpText(n.exp) != "" && ExpText(n.exp)[0] == n.exp.value.mark else ExpText(n.exp) == ""
    ensures n.exp.Some? ==> n.exp.value.mark == 'e' || n.exp.value.mark == 'E'
  {
  }

  /** Where the pieces of a number stand. */
  lemma NumPieces(s: string, i: nat, n: Num)
    requires NumOk(n) && At(s, i, NumText(n))
    ensures var a := i + |MinusText(n.negative)|;
            var b := a + |n.whole|;
            var c := b + |FracText(n.frac)|;
            && At(s, a, n.whole) && At(s, b, FracText(n.frac)) && At(s, c, ExpText(n.exp))
            && i + |NumText(n)| == c + |ExpText(n.exp)| <= |s|
            && Peek(s, i, '-') == n.negative
            && IsDigit(s[a]) && s[a] == n.whole[0]
            && (if n.frac.Some? then Peek(s, b, '.') else b == c)
            && (if n.exp.Some? then Peek(s, c, n.exp.value.mark) else c == i + |NumText(n)|)
  {
    hide At, Slice, Digits, FracText, ExpText, FracOk, ExpOk;
    NumHeads(n);
    var tail := FracText(n.frac) + ExpText(n.exp);
    var a := i + |MinusText(n.negative)|;
    var b := a + |n.whole|;
    AtConcat(s, i, MinusText(n.negative), n.whole + tail);
    AtConcat(s, a, n.whole, tail);
    AtConcat(s, b, FracText(n.frac), ExpText(n.exp));
    SliceExact(s, i, MinusText(n.negative));
    SliceExact(s, a, n.whole);
    SliceExact(s, b, FracText(n.frac));
    SliceExact(s, b + |FracText(n.frac)|, ExpText(n.exp));
  }

  lemma NumComplete(s: string, i: nat, n: Num)
    requires NumOk(n) && At(s, i, NumText(n)) && NumStops(s, i + |NumText(n)|, n)
    ensures i + |NumText(n)| <= |s| && ParseNum(s, i) == Done(n, i + |NumText(n)|)
  {
    hide At, Slice, Digits, SkipDigits, NumText, FracText, ExpText, FracOk, ExpOk, ParseFrac, ParseExp;
    NumPieces(s, i, n);
    var a := i + |MinusText(n.negative)|;
    var b := a + |n.whole|;
    NumHeads(n);
    SkipDigitsExact(s, a, n.whole);
    FracComplete(s, b, n.frac);
    ExpComplete(s, b + |FracText(n.frac)|, n.exp);
  }

  // ---- Strings ----

  lemma ChrSound(s: string, i: nat)
    requires i <= |s| && ParseChr(s, i).Done?
    ensures var r := ParseChr(s, i);
            ChrOk(r.value) && At(s, i, ChrText(r.value)) && r.end == i + |ChrText(r.value)|
  {
  }

  lemma ChrComplete(s: string, i: nat, c: Chr)
    requires ChrOk(c) && At(s, i, ChrText(c))
    ensures i + |ChrText(c)| <= |s| && ParseChr(s, i) == Done(c, i + |ChrText(c)|)
    ensures s[i] != '"'
  {
    var t := ChrText(c);
    SliceExact(s, i, t);
    assert s[i + 0] == t[0];
    if !c.Plain? {
      assert s[i + 1] == t[1];
      if c.Unicode? {
        assert s[i + 2] == t[2] && s[i + 3] == t[3] && s[i + 4] == t[4] && s[i + 5] == t[5];
      }
    }
  }

  lemma {:induction false} CharsSound(s: string, i: nat)
    requires i <= |s| && ParseChars(s, i).Done?
    ensures var r := ParseChars(s, i);
            CharsOk(r.value) && At(s, i, CharsText(r.value) + "\"") && r.end == i + |CharsText(r.value)| + 1
    decreases |s| - i
  {
    hide At, Slice, Blank, Digits;
    AtOne(s, i, '"');
    if Peek(s, i, '"') {
      assert CharsText(End) + "\"" == "\"";
    } else {
      var head, j := ParseChr(s, i).value, ParseChr(s, i).end;
      var tail := ParseChars(s, j).value;
      ChrSound(s, i);
      CharsSound(s, j);
      AtConcat(s, i, ChrText(head), CharsText(tail) + "\"");
      assert ChrText(head) + (CharsText(tail) + "\"") == CharsText(Chars(head, tail)) + "\"";
    }
  }

  lemma {:induction false} CharsComplete(s: string, i: nat, cs: Chars)
    requires CharsOk(cs) && At(s, i, CharsText(cs) + "\"")
    ensures i + |CharsText(cs)| + 1 <= |s| && ParseChars(s, i) == Done(cs, i + |CharsText(cs)| + 1)
    decreases cs
  {
    hide At, Slice, Blank, Digits;
    AtOne(s, i, '"');
    if cs.End? {
      assert CharsText(End) + "\"" == "\"";
    } else {
      assert CharsText(cs) + "\"" == ChrText(cs.head) + (CharsText(cs.tail) + "\"");
      AtConcat(s, i, ChrText(cs.head), CharsText(cs.tail) + "\"");
      ChrComplete(s, i, cs.head);
      CharsComplete(s, i + |ChrText(cs.head)|, cs.tail);
    }
  }

  // ---- Values ----

  lemma AtBracketed(s: string, i: nat, open: char, pad: string, close: char)
    ensures At(s, i, [open] + (pad + [close])) <==>
            Peek(s, i, open) && At(s, i + 1, pad) && Peek(s, i + 1 + |pad|, close)
  {
    hide At, Slice, Blank, Digits;
    AtConcat(s, i, [open], pad + [close]);
    AtConcat(s, i + 1, pad, [close]);
    AtOne(s, i, open);
    AtOne(s, i + 1 + |pad|, close);
  }

  /** The pieces of `before + (body + (after + rest))`, in both directions. */
  lemma AtElement(s: string, i: nat, before: string, body: string, after: string, rest: string)
    ensures At(s, i, before + (body + (after + rest))) <==>
            && At(s, i, before)
            && At(s, i + |before|, body)
            && At(s, i + |before| + |body|, after)
            && At(s, i + |before| + |body| + |after|, rest)
  {
    hide At, Slice, Blank, Digits;
    AtConcat(s, i, before, body + (after + rest));
    AtConcat(s, i + |before|, body, after + rest);
    AtConcat(s, i + |before| + |body|, after, rest);
  }

  lemma AtKey(s: string, i: nat, k: Key)
    ensures At(s, i, KeyText(k)) <==>
            && At(s, i, k.before)
            && Peek(s, i + |k.before|, '"')
            && At(s, i + |k.before| + 1, CharsText(k.name) + "\"")
            && At(s, i + |k.before| + |CharsText(k.name)| + 2, k.beforeColon)
            && Peek(s, i + |k.before| + |CharsText(k.name)| + 2 + |k.beforeColon|, ':')
            && At(s, i + |k.before| + |CharsText(k.name)| + 3 + |k.beforeColon|, k.afterColon)
    ensures |KeyText(k)| == |k.before| + |CharsText(k.name)| + 3 + |k.beforeColon| + |k.afterColon|
  {
    hide At, Slice, Blank, Digits;
    var t := CharsText(k.name);
    var b := i + |k.before| + 1;
    var c := b + |t| + 1;
    AtOne(s, b - 1, '"');
    AtOne(s, c - 1, '"');
    AtOne(s, c + |k.beforeColon|, ':');
    AtConcat(s, c + |k.beforeColon|, ":", k.afterColon);
    AtConcat(s, c, k.beforeColon, ":" + k.afterColon);
    AtConcat(s, c - 1, "\"", k.beforeColon + (":" + k.afterColon));
    AtConcat(s, b, t, "\"" + (k.beforeColon + (":" + k.afterColon)));
    AtConcat(s, b, t, "\"");
    AtConcat(s, b - 1, "\"", t + ("\"" + (k.beforeColon + (":" + k.afterColon))));
    AtConcat(s, i, k.before, "\"" + (t + ("\"" + (k.beforeColon + (":" + k.afterColon)))));
  }

  lemma KeySound(s: string, i: nat)
    requires i <= |s| && ParseKey(s, i).Done?
    ensures var r := ParseKey(s, i);
            KeyOk(r.value) && At(s, i, KeyText(r.value)) && r.end == i + |KeyText(r.value)|
  {
    hide At, Slice, Blank, SkipWs, CharsText, CharsOk, ParseChars, KeyText;
    var k := ParseKey(s, i);
    var j := SkipWs(s, i);
    CharsSound(s, j + 1);
    var c := ParseChars(s, j + 1).end;
    var d := SkipWs(s, c);
    AtSlice(s, i, j);
    AtSlice(s, c, d);
    AtSlice(s, d + 1, k.end);
    AtKey(s, i, k.value);
  }

  lemma KeyComplete(s: string, i: nat, k: Key)
    requires KeyOk(k) && At(s, i, KeyText(k))
    requires var j := i + |KeyText(k)|; j < |s| ==> !IsWs(s[j])
    ensures i + |KeyText(k)| <= |s| && ParseKey(s, i) == Done(k, i + |KeyText(k)|)
    ensures !Peek(s, SkipWs(s, i), '}')
  {
    hide At, Slice, Blank, SkipWs, CharsText, CharsOk, ParseChars;
    AtKey(s, i, k);
    var j := i + |k.before|;
    SkipWsExact(s, i, k.before);
    CharsComplete(s, j + 1, k.name);
    var c := j + 2 + |CharsText(k.name)|;
    SkipWsExact(s, c, k.beforeColon);
    SkipWsExact(s, c + |k.beforeColon| + 1, k.afterColon);
  }

  lemma {:induction false} ValueSound(s: string, i: nat)
    requires i <= |s| && ParseValue(s, i).Done?
    ensures var r := ParseValue(s, i);
            WellFormed(r.value) && At(s, i, Text(r.value)) && r.end == i + |Text(r.value)|
    decreases |s| - i, 2
  {
    var v := ParseValue(s, i).value;
    if s[i] == '[' {
      ArraySound(s, i);
    } else if s[i] == '{' {
      ObjectSound(s, i);
    } else if s[i] == '"' {
      hide At;
      CharsSound(s, i + 1);
      AtOne(s, i, '"');
      AtConcat(s, i, "\"", CharsText(v.chars) + "\"");
    } else if v.Number? {
      hide At, Slice, NumText, NumOk;
      NumSound(s, i);
    }
  }

  lemma {:induction false} ArraySound(s: string, i: nat)
    requires i < |s| && s[i] == '[' && ParseValue(s, i).Done?
    ensures var r := ParseValue(s, i);
            WellFormed(r.value) && At(s, i, Text(r.value)) && r.end == i + |Text(r.value)|
    decreases |s| - i, 1
  {
    hide At, Slice, Blank, SkipWs, ParseItems, ParseMembers, ItemsOk, MembersOk, ItemsText, MembersText;
    var r := ParseValue(s, i);
    if r.value.EmptyArray? {
      AtSlice(s, i + 1, SkipWs(s, i + 1));
      AtBracketed(s, i, '[', r.value.pad, ']');
    } else {
      ItemsSound(s, i + 1);
      AtOne(s, i, '[');
      AtConcat(s, i, "[", ItemsText(r.value.items));
    }
  }

  lemma {:induction false} ObjectSound(s: string, i: nat)
    requires i < |s| && s[i] == '{' && ParseValue(s, i).Done?
    ensures var r := ParseValue(s, i);
            WellFormed(r.value) && At(s, i, Text(r.value)) && r.end == i + |Text(r.value)|
    decreases |s| - i, 1
  {
    hide At, Slice, Blank, SkipWs, ParseItems, ParseMembers, ItemsOk, MembersOk, ItemsText, MembersText;
    var r := ParseValue(s, i);
    if r.value.EmptyObject? {
      AtSlice(s, i + 1, SkipWs(s, i + 1));
      AtBracketed(s, i, '{', r.value.pad, '}');
    } else {
      MembersSound(s, i + 1);
      AtOne(s, i, '{');
      AtConcat(s, i, "{", MembersText(r.value.members));
    }
  }

  lemma {:induction false} ItemsSound(s: string, i: nat)
    requires i <= |s| && ParseItems(s, i).Done?
    ensures var r := ParseItems(s, i);
            ItemsOk(r.value) && At(s, i, ItemsText(r.value)) && r.end == i + |ItemsText(r.value)|
    decreases |s| - i, 3
  {
    hide At, Slice, Blank, SkipWs, ParseValue, Text;
    var items := ParseItems(s, i).value;
    var j := SkipWs(s, i);
    ValueSound(s, j);
    var k := ParseValue(s, j).end;
    var l := SkipWs(s, k);
    AtSlice(s, i, j);
    AtSlice(s, k, l);
    if items.LastItem? {
      AtOne(s, l, ']');
      AtElement(s, i, items.before, Text(items.value), items.after, "]");
    } else {
      ItemsSound(s, l + 1);
      AtOne(s, l, ',');
      AtConcat(s, l, ",", ItemsText(items.rest));
      AtElement(s, i, items.before, Text(items.value), items.after, "," + ItemsText(items.rest));
    }
  }

  /** The pieces the recogniser found, one member deep. */
  lemma MembersParsed(s: string, i: nat)
    requires i <= |s| && ParseMembers(s, i).Done?
    ensures var r := ParseMembers(s, i);
            && ParseKey(s, i).Done? && r.value.key == ParseKey(s, i).value
            && var d := ParseKey(s, i).end;
            && ParseValue(s, d).Done? && r.value.value == ParseValue(s, d).value
            && var k := ParseValue(s, d).end;
            && var l := SkipWs(s, k);
            && r.value.after == Slice(s, k, l)
            && (r.value.LastMember? ==> Peek(s, l, '}') && r.end == l + 1)
            && (r.value.MoreMembers? ==>
                  Peek(s, l, ',') && ParseMembers(s, l + 1) == Done(r.value.rest, r.end))
  {
    hide Slice, SkipWs, ParseKey, ParseValue;
  }

  lemma MembersUnfold(ms: Members)
    ensures MembersText(ms) ==
            KeyText(ms.key) + (Text(ms.value) + (ms.after + if ms.LastMember? then "}" else "," + MembersText(ms.rest)))
    ensures MembersOk(ms) <==>
            KeyOk(ms.key) && WellFormed(ms.value) && Blank(ms.after) && (ms.MoreMembers? ==> MembersOk(ms.rest))
  {
    hide KeyText, Text, KeyOk, WellFormed, Blank;
  }

  lemma {:induction false} MembersSound(s: string, i: nat)
    requires i <= |s| && ParseMembers(s, i).Done?
    ensures var r := ParseMembers(s, i);
            MembersOk(r.value) && At(s, i, MembersText(r.value)) && r.end == i + |MembersText(r.value)|
    decreases |s| - i, 3
  {
    hide At, Slice, Blank, SkipWs, ParseValue, Text, ParseKey, KeyText, KeyOk, ParseMembers, MembersText, MembersOk,
         WellFormed;
    var members := ParseMembers(s, i).value;
    MembersParsed(s, i);
    MembersUnfold(members);
    KeySound(s, i);
    var d := ParseKey(s, i).end;
    ValueSound(s, d);
    var k := ParseValue(s, d).end;
    var l := SkipWs(s, k);
    AtSlice(s, k, l);
    if members.LastMember? {
      AtOne(s, l, '}');
      AtElement(s, i, KeyText(members.key), Text(members.value), members.after, "}");
    } else {
      MembersSound(s, l + 1);
      AtOne(s, l, ',');
      AtConcat(s, l, ",", MembersText(members.rest));
      AtElement(s, i, KeyText(members.key), Text(members.value), members.after, "," + MembersText(members.rest));
    }
  }

  /** The text of a well-formed value starts with a character that selects its case, and is never blank. */
  predicate Starts(v: Value, c: char) {
    match v
    case Null => c == 'n'
    case True => c == 't'
    case False => c == 'f'
    case Number(_) => c == '-' || IsDigit(c)
    case Str(_) => c == '"'
    case EmptyArray(_) => c == '['
    case Array(_) => c == '['
    case EmptyObject(_) => c == '{'
    case Object(_) => c == '{'
  }

  lemma FirstChar(v: Value)
    requires WellFormed(v)
    ensures |Text(v)| > 0 && Starts(v, Text(v)[0])
  {
    if v.Number? {
      var n := v.num;
      if !n.negative {
        assert NumText(n) == n.whole + (FracText(n.frac) + ExpText(n.exp));
      }
    }
  }

  lemma NotBracket(v: Value, c: char)
    requires Starts(v, c)
    ensures c != ']' && c != '}' && c != ','
  {
  }

  lemma AtFirst(s: string, i: nat, v: Value)
    requires WellFormed(v) && At(s, i, Text(v))
    ensures i < |s| && Starts(v, s[i]) && !IsWs(s[i])
  {
    FirstChar(v);
    SliceExact(s, i, Text(v));
  }

  /** The values without elements. */
  lemma LeafComplete(s: string, i: nat, v: Value)
    requires WellFormed(v) && At(s, i, Text(v)) && !v.Array? && !v.Object?
    requires v.Number? ==> NumStops(s, i + |Text(v)|, v.num)
    ensures i + |Text(v)| <= |s| && ParseValue(s, i) == Done(v, i + |Text(v)|)
  {
    hide Slice, Blank, NumText, NumOk, ParseNum, CharsText, SkipWs, CharsOk;
    AtFirst(s, i, v);
    SliceExact(s, i, Text(v));
    match v
    case Null =>
    case True =>
    case False =>
    case Number(n) => NumComplete(s, i, n);
    case Str(chars) =>
      AtConcat(s, i, "\"", CharsText(chars) + "\"");
      CharsComplete(s, i + 1, chars);
    case EmptyArray(pad) =>
      AtBracketed(s, i, '[', pad, ']');
      SkipWsExact(s, i + 1, pad);
    case EmptyObject(pad) =>
      AtBracketed(s, i, '{', pad, '}');
      SkipWsExact(s, i + 1, pad);
  }

  lemma {:induction false} ValueComplete(s: string, i: nat, v: Value)
    requires WellFormed(v) && At(s, i, Text(v))
    requires v.Number? ==> NumStops(s, i + |Text(v)|, v.num)
    ensures i + |Text(v)| <= |s| && ParseValue(s, i) == Done(v, i + |Text(v)|)
    decreases v
  {
    hide At, Slice, Blank, SkipWs, NumText, NumOk, ParseNum, ItemsOk, MembersOk, ItemsText, MembersText, CharsText;
    if v.Array? {
      AtConcat(s, i, "[", ItemsText(v.items));
      AtOne(s, i, '[');
      ItemsComplete(s, i + 1, v.items);
    } else if v.Object? {
      AtConcat(s, i, "{", MembersText(v.members));
      AtOne(s, i, '{');
      MembersComplete(s, i + 1, v.members);
    } else {
      LeafComplete(s, i, v);
    }
  }

  /**
   The recogniser takes the text of `v`, wherever it stands, as `v` and nothing longer, if and only if a number is not
   run into what follows it.
   */
  lemma ValueIff(s: string, i: nat, v: Value)
    requires WellFormed(v) && At(s, i, Text(v))
    ensures i <= |s|
    ensures ParseValue(s, i) == Done(v, i + |Text(v)|) <==> (v.Number? ==> NumStops(s, i + |Text(v)|, v.num))
  {
    hide At, Text, ParseValue, WellFormed, NumStops, ParseNum;
    AtFirst(s, i, v);
    if v.Number? ==> NumStops(s, i + |Text(v)|, v.num) {
      ValueComplete(s, i, v);
    }
    if ParseValue(s, i) == Done(v, i + |Text(v)|) && v.Number? {
      NumberParsed(s, i);
      ParsedNumberStops(s, i);
    }
  }

  lemma NumberParsed(s: string, i: nat)
    requires i <= |s| && ParseValue(s, i).Done? && ParseValue(s, i).value.Number?
    ensures ParseNum(s, i) == Done(ParseValue(s, i).value.num, ParseValue(s, i).end)
  {
    hide ParseNum, SkipWs, ParseItems, ParseMembers, ParseChars;
  }

  lemma ParsedNumberStops(s: string, i: nat)
    requires i <= |s| && ParseNum(s, i).Done?
    ensures NumStops(s, ParseNum(s, i).end, ParseNum(s, i).value)
  {
  }

  /** After a value inside brackets there is whitespace, a comma or a bracket, so numbers end there. */
  lemma PadEndsNumber(s: string, k: nat, after: string, c: char)
    requires At(s, k, after) && Blank(after) && Peek(s, k + |after|, c)
    requires c == ',' || c == ']' || c == '}'
    ensures forall n :: NumStops(s, k, n)
    ensures SkipWs(s, k) == k + |after| && Slice(s, k, k + |after|) == after
  {
    SkipWsExact(s, k, after);
    SliceExact(s, k, after);
  }

  /** Where the pieces of a non-empty array body stand. */
  lemma ItemsPieces(s: string, i: nat, items: Items)
    requires At(s, i, ItemsText(items))
    ensures var j := i + |items.before|;
            var k := j + |Text(items.value)|;
            var l := k + |items.after|;
            && At(s, i, items.before) && At(s, j, Text(items.value)) && At(s, k, items.after)
            && (items.LastItem? ==> Peek(s, l, ']') && i + |ItemsText(items)| == l + 1)
            && (items.MoreItems? ==>
                  && Peek(s, l, ',')
                  && At(s, l + 1, ItemsText(items.rest))
                  && i + |ItemsText(items)| == l + 1 + |ItemsText(items.rest)|)
  {
    hide At, Text;
    var l := i + |items.before| + |Text(items.value)| + |items.after|;
    if items.LastItem? {
      AtElement(s, i, items.before, Text(items.value), items.after, "]");
      AtOne(s, l, ']');
    } else {
      AtElement(s, i, items.before, Text(items.value), items.after, "," + ItemsText(items.rest));
      AtConcat(s, l, ",", ItemsText(items.rest));
      AtOne(s, l, ',');
    }
  }

  lemma {:induction false} ItemsComplete(s: string, i: nat, items: Items)
    requires ItemsOk(items) && At(s, i, ItemsText(items))
    ensures i + |ItemsText(items)| <= |s| && ParseItems(s, i) == Done(items, i + |ItemsText(items)|)
    ensures !Peek(s, SkipWs(s, i), ']')
    decreases items
  {
    hide At, Slice, Blank, SkipWs, ItemsText, WellFormed, Starts, Text, ParseValue;
    var v := items.value;
    ItemsPieces(s, i, items);
    var j := i + |items.before|;
    var k := j + |Text(v)|;
    AtFirst(s, j, v);
    NotBracket(v, s[j]);
    PadEndsNumber(s, k, items.after, if items.LastItem? then ']' else ',');
    ValueComplete(s, j, v);
    SkipWsExact(s, i, items.before);
    if items.MoreItems? {
      ItemsComplete(s, k + |items.after| + 1, items.rest);
    }
  }

  lemma MembersPieces(s: string, i: nat, members: Members)
    requires At(s, i, MembersText(members))
    ensures var d := i + |KeyText(members.key)|;
            var k := d + |Text(members.value)|;
            var l := k + |members.after|;
            && At(s, i, KeyText(members.key)) && At(s, d, Text(members.value)) && At(s, k, members.after)
            && (members.LastMember? ==> Peek(s, l, '}') && i + |MembersText(members)| == l + 1)
            && (members.MoreMembers? ==>
                  && Peek(s, l, ',')
                  && At(s, l + 1, MembersText(members.rest))
                  && i + |MembersText(members)| == l + 1 + |MembersText(members.rest)|)
  {
    hide At, Text, KeyText;
    var l := i + |KeyText(members.key)| + |Text(members.value)| + |members.after|;
    if members.LastMember? {
      AtElement(s, i, KeyText(members.key), Text(members.value), members.after, "}");
      AtOne(s, l, '}');
    } else {
      AtElement(s, i, KeyText(members.key), Text(members.value), members.after, "," + MembersText(members.rest));
      AtConcat(s, l, ",", MembersText(members.rest));
      AtOne(s, l, ',');
    }
  }

  lemma {:induction false} MembersComplete(s: string, i: nat, members: Members)
    requires MembersOk(members) && At(s, i, MembersText(members))
    ensures i + |MembersText(members)| <= |s|
    ensures ParseMembers(s, i) == Done(members, i + |MembersText(members)|)
    ensures !Peek(s, SkipWs(s, i), '}')
    decreases members
  {
    hide At, Slice, Blank, SkipWs, MembersText, WellFormed, Starts, Text, ParseValue, KeyText, KeyOk, ParseKey;
    var v := members.value;
    MembersPieces(s, i, members);
    var d := i + |KeyText(members.key)|;
    var k := d + |Text(v)|;
    AtFirst(s, d, v);
    KeyComplete(s, i, members.key);
    PadEndsNumber(s, k, members.after, if members.LastMember? then '}' else ',');
    ValueComplete(s, d, v);
    if members.MoreMembers? {
      MembersComplete(s, k + |members.after| + 1, members.rest);
    }
  }

  // ---- Documents ----

  /** `s` is the text of `v` with whitespace around it: the grammar's own reading of a whole text. */
  ghost predicate IsDocument(s: string, v: Value) {
    exists pre: string, post: string :: Blank(pre) && Blank(post) && s == pre + (Text(v) + post)
  }

  /** The recogniser returns a tree exactly when the grammar derives the text from it. */
  lemma DocumentIff(s: string, v: Value)
    ensures ParseDocument(s) == Some(v) <==> WellFormed(v) && IsDocument(s, v)
  {
    hide ParseDocument, WellFormed, Text, Blank;
    if ParseDocument(s) == Some(v) {
      DocumentSound(s, v);
    }
    if WellFormed(v) && IsDocument(s, v) {
      var pre: string, post: string :| Blank(pre) && Blank(post) && s == pre + (Text(v) + post);
      DocumentComplete(s, pre, v, post);
    }
  }

  lemma DocumentSound(s: string, v: Value)
    requires ParseDocument(s) == Some(v)
    ensures WellFormed(v) && IsDocument(s, v)
  {
    hide ParseValue, WellFormed, Text, SkipWs;
    var i := SkipWs(s, 0);
    ValueSound(s, i);
    var j := i + |Text(v)|;
    assert s[j..|s|] == s[j..];
    assert s == s[0..i] + (Text(v) + s[j..]);
  }

  lemma AtWhole(s: string)
    ensures At(s, 0, s)
  {
  }

  lemma BlankHead(t: string)
    requires Blank(t)
    ensures t != "" ==> IsWs(t[0])
  {
  }

  lemma DocumentComplete(s: string, pre: string, v: Value, post: string)
    requires WellFormed(v) && Blank(pre) && Blank(post) && s == pre + (Text(v) + post)
    ensures ParseDocument(s) == Some(v)
  {
    hide At, Slice, Blank, Text, ParseValue, WellFormed, SkipWs;
    var i := |pre|;
    var j := i + |Text(v)|;
    AtWhole(s);
    BlankHead(post);
    AtConcat(s, 0, pre, Text(v) + post);
    AtConcat(s, i, Text(v), post);
    AtFirst(s, i, v);
    SkipWsExact(s, 0, pre);
    SliceExact(s, j, post);
    ValueComplete(s, i, v);
    SkipWsExact(s, j, post);
  }

  /** No text has two readings. */
  lemma DocumentUnique(s: string, v: Value, w: Value)
    requires WellFormed(v) && WellFormed(w) && IsDocument(s, v) && IsDocument(s, w)
    ensures v == w
  {
    DocumentIff(s, v);
    DocumentIff(s, w);
  }
}
