/** What the handshake comes to, written out: the upstream's fields one by one, and requests that are accepted. */
module HandshakeMeaning {
  import opened Handshake
  import opened Headers
  import opened Strings
  import opened Wrappers

  // ---- The upstream request ----

  const HANDSHAKE_NAMES := [
    "connection", "upgrade", "host", "sec-websocket-version", "sec-websocket-key", "sec-websocket-protocol",
    "sec-websocket-extensions"]

  /** Fields that must not cross a hop: RFC 9110, section 7.6.1, and those a proxy writes itself. */
  lemma HopByHopNames(n: string)
    ensures n in HOP_BY_HOP <==>
            n in ["connection", "keep-alive", "proxy-connection", "proxy-authenticate", "proxy-authorization", "te",
                  "trailer", "trailers", "transfer-encoding", "upgrade", "host", "content-length"]
  {
  }

  lemma HandshakeFields(m: Fields, mode: Mode, host: Option<string>, freshKey: string)
    requires OfferOk(Offer(m))
    ensures var v := (name: string) => UpstreamValues(m, mode, host, freshKey, name);
            && v("connection") == ["Upgrade"] && v("upgrade") == ["websocket"] && v("sec-websocket-version") == ["13"]
            && v("sec-websocket-key") == (if mode == Upgrade then Values(m, "sec-websocket-key") else [freshKey])
            && v("sec-websocket-protocol") == (if Offer(m) == [] then [] else [Join(Offer(m), ", ")])
            && (Offer(m) != [] ==> Tokens(Join(Offer(m), ", ")) == Offer(m))
            && v("sec-websocket-extensions") == []
            && v("host") == (if host.Some? then [host.value] else [])
  {
    hide Tokens, Join, Nominated, Offer, EndToEnd;
    if Offer(m) != [] {
      JoinParsesBack(Offer(m));
    }
  }

  lemma OtherFields(m: Fields, mode: Mode, host: Option<string>, freshKey: string, n: string)
    requires n !in HANDSHAKE_NAMES
    ensures UpstreamValues(m, mode, host, freshKey, n) ==
            if n in HOP_BY_HOP || Nominated(m, n) then [] else Values(m, n)
  {
    hide Nominated, Offer, Join;
    assert HANDSHAKE_NAMES[0] == "connection" && HANDSHAKE_NAMES[1] == "upgrade" && HANDSHAKE_NAMES[2] == "host";
    assert HANDSHAKE_NAMES[3] == VERSION && HANDSHAKE_NAMES[4] == KEY && HANDSHAKE_NAMES[5] == PROTOCOL;
    assert HANDSHAKE_NAMES[6] == EXTENSIONS;
  }

  /**
   The fields of the upstream request: the handshake fields have one fixed value each, the key is the client's or the
   fresh one, the offer is merged and parses back, and of all other fields exactly those that are neither hop-by-hop nor
   nominated are left, with their values.
   */
  lemma UpstreamRequestShape(m: Fields, mode: Mode, name: string, version: Version, accepts: ServerCheck,
                             host: Option<string>, freshKey: string, n: string)
    requires Acceptable(m, mode, name, version, accepts)
    ensures var v := (name: string) => UpstreamValues(m, mode, host, freshKey, name);
            && v("connection") == ["Upgrade"] && v("upgrade") == ["websocket"] && v("sec-websocket-version") == ["13"]
            && v("sec-websocket-key") == (if mode == Upgrade then Values(m, "sec-websocket-key") else [freshKey])
            && |v("sec-websocket-key")| == 1
            && v("sec-websocket-protocol") == (if Offer(m) == [] then [] else [Join(Offer(m), ", ")])
            && (Offer(m) != [] ==> Tokens(Join(Offer(m), ", ")) == Offer(m))
            && v("sec-websocket-extensions") == []
            && v("host") == (if host.Some? then [host.value] else [])
            && (n !in HANDSHAKE_NAMES ==> v(n) == if n in HOP_BY_HOP || Nominated(m, n) then [] else Values(m, n))
  {
    hide UpstreamValues, Tokens, Join, Nominated, OfferOk, Offer, Rewritten;
    HandshakeFields(m, mode, host, freshKey);
    if n !in HANDSHAKE_NAMES {
      OtherFields(m, mode, host, freshKey, n);
    }
  }

  // ---- Tokens ----

  /** A token character is a visible character that is no delimiter: section 5.6.2 of RFC 9110. */
  lemma TokenCharIff(c: char)
    ensures IsTokenChar(c) <==> '!' <= c <= '~' && c !in "\"(),/:;<=>?@[\\]{}"
  {
  }

  lemma {:induction false} DropFront(a: string, t: string, drop: char -> bool)
    requires All(a, drop) && (t != "" ==> !drop(t[0]))
    ensures TrimStart(a + t, drop) == t
    decreases |a|
  {
    if a == "" {
      assert a + t == t;
    } else {
      assert (a + t)[1..] == a[1..] + t;
      DropFront(a[1..], t, drop);
    }
  }

  lemma {:induction false} DropBack(t: string, b: string, drop: char -> bool)
    requires All(b, drop) && (t != "" ==> !drop(t[|t| - 1]))
    ensures TrimEnd(t + b, drop) == t
    decreases |b|
  {
    if b == "" {
      assert t + b == t;
    } else {
      assert (t + b)[..|t + b| - 1] == t + b[..|b| - 1];
      DropBack(t, b[..|b| - 1], drop);
    }
  }

  /** Droppable characters on both sides go, and nothing else. */
  lemma TrimPadded(a: string, t: string, b: string, drop: char -> bool)
    requires All(a, drop) && All(b, drop) && t != "" && Tight(t, drop)
    ensures Trim(a + t + b, drop) == t
  {
    assert a + t + b == a + (t + b);
    DropFront(a, t + b, drop);
    DropBack(t, b, drop);
  }

  /** A token with spaces and tabs around it. */
  datatype Padded = Padded(before: string, token: string, behind: string)

  predicate PaddedOk(p: Padded) {
    && p.token != "" && All(p.token, IsTokenChar)
    && (forall k :: 0 <= k < |p.before| ==> p.before[k] == ' ' || p.before[k] == '\t')
    && (forall k :: 0 <= k < |p.behind| ==> p.behind[k] == ' ' || p.behind[k] == '\t')
  }

  function ItemText(p: Padded): string {
    p.before + p.token + p.behind
  }

  function LineText(ps: seq<Padded>): string
    requires ps != []
  {
    if |ps| == 1 then ItemText(ps[0]) else ItemText(ps[0]) + [','] + LineText(ps[1..])
  }

  function TokensIn(ps: seq<Padded>): (ts: seq<string>)
    ensures |ts| == |ps| && forall k :: 0 <= k < |ps| ==> ts[k] == ps[k].token
  {
    seq(|ps|, k requires 0 <= k < |ps| => ps[k].token)
  }

  lemma ItemTokens(p: Padded)
    requires PaddedOk(p)
    ensures Tokens(ItemText(p)) == [p.token]
  {
    hide Split, Trim;
    assert forall k :: 0 <= k < |p.token| ==> p.token[k] != ',' && !IsOws(p.token[k]) by {
      assert forall c :: IsTokenChar(c) ==> c != ',' && !IsOws(c);
    }
    SplitNone(ItemText(p), ',');
    TrimPadded(p.before, p.token, p.behind, IsOws);
  }

  lemma TokensAcross(a: string, b: string)
    ensures Tokens(a + [','] + b) == Tokens(a) + Tokens(b)
  {
    hide Split, Trim;
    SplitAcross(a, ',', b);
  }

  /** A line of tokens, each padded in any way, holds exactly these tokens. */
  lemma {:induction false} LineTokens(ps: seq<Padded>)
    requires ps != [] && forall k :: 0 <= k < |ps| ==> PaddedOk(ps[k])
    ensures Tokens(LineText(ps)) == TokensIn(ps)
    decreases |ps|
  {
    hide Tokens, ItemText, PaddedOk;
    ItemTokens(ps[0]);
    if |ps| > 1 {
      LineTokens(ps[1..]);
      TokensAcross(ItemText(ps[0]), LineText(ps[1..]));
    }
  }

  // ---- Requests that are accepted ----

  /** The fields of an ordinary request: any others, a version, a key and, if there is one, a line of offered tokens. */
  function OrdinaryFields(others: Fields, key: string, ps: seq<Padded>): Fields {
    var m := (others - {"sec-websocket-protocol"})["sec-websocket-version" := ["13"]]["sec-websocket-key" := [key]];
    if ps == [] then m else m["sec-websocket-protocol" := [LineText(ps)]]
  }

  /**
   Every ordinary request is accepted in both modes, whatever its key, its other fields and the padding of its offer, as
   long as the offered tokens are valid and distinct and the server library has nothing against it; and what is offered
   upstream is exactly what it offered.
   */
  lemma OrdinaryRequestAccepted(others: Fields, key: string, ps: seq<Padded>, mode: Mode, name: string,
                                accepts: ServerCheck)
    requires forall k :: 0 <= k < |ps| ==> PaddedOk(ps[k])
    requires forall i, j :: 0 <= i < j < |ps| ==> ps[i].token != ps[j].token
    requires mode == Upgrade ==> accepts(name, Http11, Rewritten(OrdinaryFields(others, key, ps), Upgrade))
    ensures Acceptable(OrdinaryFields(others, key, ps), mode, name, Http11, accepts)
    ensures Offer(OrdinaryFields(others, key, ps)) == TokensIn(ps)
  {
    hide Tokens, TokensOf, LineText, Rewritten, IsTokenChar;
    var m := OrdinaryFields(others, key, ps);
    OrdinaryValues(others, key, ps);
    if ps == [] {
      NoTokensNoLines([]);
    } else {
      LineTokens(ps);
      TokensOfOne(LineText(ps));
    }
    AcceptableIff(m, mode, name, Http11, accepts);
  }

  lemma OrdinaryValues(others: Fields, key: string, ps: seq<Padded>)
    ensures var m := OrdinaryFields(others, key, ps);
            && Values(m, "sec-websocket-version") == ["13"] && Values(m, "sec-websocket-key") == [key]
            && Values(m, "sec-websocket-protocol") == if ps == [] then [] else [LineText(ps)]
  {
    hide LineText;
  }

  /** And any other version is refused. */
  lemma OtherVersionRefused(m: Fields, mode: Mode, name: string, version: Version, accepts: ServerCheck)
    requires Values(m, "sec-websocket-version") != ["13"]
    ensures !Acceptable(m, mode, name, version, accepts)
  {
    hide Rewritten, Offer;
    AcceptableIff(m, mode, name, version, accepts);
  }

  // ---- Connection options ----

  lemma InAlphabet(c: char)
    ensures 'A' <= c <= 'Z' <==> c in "ABCDEFGHIJKLMNOPQRSTUVWXYZ"
  {
  }

  lemma Alphabets(i: nat)
    requires i < 26
    ensures "ABCDEFGHIJKLMNOPQRSTUVWXYZ"[i] as int == 'A' as int + i
    ensures "abcdefghijklmnopqrstuvwxyz"[i] as int == 'a' as int + i
  {
  }

  /** Upper and lower case letters correspond by their place in the alphabet; nothing else changes. */
  lemma LowerCharIff(c: char, d: char)
    ensures LowerChar(c) == d <==>
            || (exists i :: 0 <= i < 26 && c == "ABCDEFGHIJKLMNOPQRSTUVWXYZ"[i] && d == "abcdefghijklmnopqrstuvwxyz"[i])
            || (c == d && c !in "ABCDEFGHIJKLMNOPQRSTUVWXYZ")
  {
    InAlphabet(c);
    if 'A' <= c <= 'Z' {
      Alphabets(c as int - 'A' as int);
    }
    if i :| 0 <= i < 26 && c == "ABCDEFGHIJKLMNOPQRSTUVWXYZ"[i] && d == "abcdefghijklmnopqrstuvwxyz"[i] {
      Alphabets(i);
    }
  }

  /**
   A connection option names a field exactly when, without the ASCII whitespace around it, it is a non-empty run of
   token characters; the name is that run in lower case.
   */
  lemma OptionNameIff(item: string, name: string)
    ensures OptionName(item) == Some(name) <==>
            exists a: string, t: string, b: string ::
              && item == a + t + b && t != ""
              && (forall k :: 0 <= k < |a| ==> a[k] in " \t\n\r" || a[k] as int == 12)
              && (forall k :: 0 <= k < |b| ==> b[k] in " \t\n\r" || b[k] as int == 12)
              && (forall k :: 0 <= k < |t| ==> IsTokenChar(t[k]))
              && |name| == |t| && forall k :: 0 <= k < |t| ==> name[k] == LowerChar(t[k])
  {
    hide Trim, IsTokenChar, LowerChar;
    WhitespaceIff();
    if OptionName(item) == Some(name) {
      var i, j := TrimCuts(item, IsAsciiWs);
      var a, t, b := item[..i], item[i..j], item[j..];
      assert item == a + t + b;
    }
    if a: string, t: string, b: string :|
         && item == a + t + b && t != ""
         && (forall k :: 0 <= k < |a| ==> a[k] in " \t\n\r" || a[k] as int == 12)
         && (forall k :: 0 <= k < |b| ==> b[k] in " \t\n\r" || b[k] as int == 12)
         && (forall k :: 0 <= k < |t| ==> IsTokenChar(t[k]))
         && |name| == |t| && forall k :: 0 <= k < |t| ==> name[k] == LowerChar(t[k])
    {
      TokensAreTight(t);
      TrimPadded(a, t, b, IsAsciiWs);
      assert Lower(t) == name;
    }
  }

  lemma WhitespaceIff()
    ensures forall c: char :: IsAsciiWs(c) <==> c in " \t\n\r" || c as int == 12
  {
  }

  lemma TokensAreTight(t: string)
    requires t != "" && forall k :: 0 <= k < |t| ==> IsTokenChar(t[k])
    ensures Tight(t, IsAsciiWs) && All(t, IsTokenChar)
  {
    assert forall c :: IsTokenChar(c) ==> !IsAsciiWs(c);
  }
}
