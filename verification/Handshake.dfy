/**
 The WebSocket handshake towards the upstream (`normalize_subprotocols`, `WsMode::response` and `build_ws_request` in
 `src/websocket.rs`): three transformations of one header map, in place, and their combined effect.
 RFC 6455, section 4.1, and RFC 8441, section 5.
 */
module Handshake {
  import opened Wrappers
  import opened Strings
  import opened Headers
  import Uris

  const KEY := "sec-websocket-key"
  const VERSION := "sec-websocket-version"
  const PROTOCOL := "sec-websocket-protocol"
  const EXTENSIONS := "sec-websocket-extensions"

  datatype Mode = Upgrade | ExtendedConnect

  // ---- Subprotocol offers ----

  /** `HeaderValue::to_str` accepts visible ASCII, spaces and tabs. */
  predicate IsVisible(c: char) {
    ' ' <= c <= '~' || c == '\t'
  }

  predicate ValidToken(t: string) {
    t != "" && All(t, IsTokenChar)
  }

  /** The tokens of one field line: its comma-separated items without the whitespace around them. */
  function Tokens(line: string): (r: seq<string>)
    ensures |r| == |Split(line, ',')| && forall k :: 0 <= k < |r| ==> r[k] == Trim(Split(line, ',')[k], IsOws)
  {
    var items := Split(line, ',');
    seq(|items|, k requires 0 <= k < |items| => Trim(items[k], IsOws))
  }

  function TokensOf(lines: seq<string>): seq<string> {
    if lines == [] then [] else Tokens(lines[0]) + TokensOf(lines[1..])
  }

  /** The tokens offered by all field lines, in order. */
  function Offer(m: Fields): seq<string> {
    TokensOf(Values(m, PROTOCOL))
  }

  predicate Distinct(ts: seq<string>) {
    forall i, j :: 0 <= i < j < |ts| ==> ts[i] != ts[j]
  }

  /** An acceptable offer: every token valid, none repeated. */
  predicate OfferOk(ts: seq<string>) {
    (forall k :: 0 <= k < |ts| ==> ValidToken(ts[k])) && Distinct(ts)
  }

  function Normalized(m: Fields): Fields {
    if Offer(m) == [] then m else m[PROTOCOL := [Join(Offer(m), ", ")]]
  }

  lemma BadTokenSpoils(ts: seq<string>, k: nat)
    requires k < |ts|
    requires !ValidToken(ts[k]) || exists i :: 0 <= i < k && ts[i] == ts[k]
    ensures !OfferOk(ts)
  {
  }

  /** A line with a character that `to_str` refuses has a token that the token test refuses. */
  lemma InvisibleSpoils(line: string)
    requires !All(line, IsVisible)
    ensures exists k :: 0 <= k < |Tokens(line)| && !ValidToken(Tokens(line)[k])
  {
    hide Split, Trim;
    var p: nat :| p < |line| && !IsVisible(line[p]);
    var k, q := SplitKeeps(line, ',', p);
    TrimKeeps(Split(line, ',')[k], IsOws, q);
    var t := Tokens(line)[k];
    var r :| 0 <= r < |t| && t[r] == line[p];
    assert !IsTokenChar(t[r]);
  }

  lemma {:induction false} TokensOfConcat(a: seq<string>, b: seq<string>)
    ensures TokensOf(a + b) == TokensOf(a) + TokensOf(b)
    decreases |a|
  {
    hide Tokens;
    if a == [] {
      assert a + b == b;
    } else {
      assert (a + b)[1..] == a[1..] + b;
      TokensOfConcat(a[1..], b);
      assert Tokens(a[0]) + (TokensOf(a[1..]) + TokensOf(b)) == (Tokens(a[0]) + TokensOf(a[1..])) + TokensOf(b);
    }
  }

  lemma TokensOfOne(line: string)
    ensures TokensOf([line]) == Tokens(line)
  {
    hide Tokens;
    assert [line][1..] == [];
    assert TokensOf([line]) == Tokens(line) + [];
  }

  lemma TokensOfSnoc(before: seq<string>, line: string)
    ensures TokensOf(before + [line]) == TokensOf(before) + Tokens(line)
  {
    hide Tokens, TokensOf;
    TokensOfOne(line);
    TokensOfConcat(before, [line]);
  }

  lemma Cut(lines: seq<string>, i: nat)
    requires i < |lines|
    ensures lines[..i + 1] == lines[..i] + [lines[i]]
    ensures lines == lines[..i + 1] + lines[i + 1..]
  {
  }

  /** The tokens of the first lines, those of line `i`, and those of the rest. */
  lemma TokensOfPieces(lines: seq<string>, i: nat)
    requires i < |lines|
    ensures TokensOf(lines[..i + 1]) == TokensOf(lines[..i]) + Tokens(lines[i])
    ensures TokensOf(lines) == TokensOf(lines[..i + 1]) + TokensOf(lines[i + 1..])
  {
    hide Tokens, TokensOf;
    Cut(lines, i);
    TokensOfSnoc(lines[..i], lines[i]);
    TokensOfConcat(lines[..i + 1], lines[i + 1..]);
  }

  lemma JoinCons(ts: seq<string>, sep: string)
    requires |ts| > 1
    ensures Join(ts, sep) == ts[0] + sep + Join(ts[1..], sep)
  {
  }

  lemma Regroup(a: string, b: string, c: string)
    ensures a + (b + c) == (a + b) + c
  {
  }

  lemma {:induction false} JoinSnoc(ts: seq<string>, t: string, sep: string)
    ensures Join(ts + [t], sep) == if ts == [] then t else Join(ts, sep) + (sep + t)
    decreases |ts|
  {
    if ts == [] {
      assert ts + [t] == [t];
    } else if |ts| == 1 {
      Regroup(ts[0], sep, t);
      assert (ts + [t])[1..] == [t];
    } else {
      hide Join;
      assert (ts + [t])[1..] == ts[1..] + [t];
      JoinSnoc(ts[1..], t, sep);
      JoinCons(ts + [t], sep);
      JoinCons(ts, sep);
      Regroup(ts[0] + sep, Join(ts[1..], sep), sep + t);
    }
  }

  lemma JoinBlank(ts: seq<string>, sep: string)
    requires OfferOk(ts) && sep != ""
    ensures Join(ts, sep) == "" <==> ts == []
  {
    hide IsTokenChar;
    assert ts != [] ==> ValidToken(ts[0]);
  }

  lemma PrefixSpoils(ts: seq<string>, k: nat)
    requires k <= |ts| && !OfferOk(ts[..k])
    ensures !OfferOk(ts)
  {
    hide ValidToken;
    assert forall i :: 0 <= i < k ==> ts[..k][i] == ts[i];
  }

  /** The offer so far with the first `j` tokens of the next line. */
  function UpTo(done: seq<string>, tokens: seq<string>, j: nat): seq<string>
    requires j <= |tokens|
  {
    done + tokens[..j]
  }

  lemma UpToStep(done: seq<string>, tokens: seq<string>, j: nat)
    requires j < |tokens|
    ensures UpTo(done, tokens, j + 1) == UpTo(done, tokens, j) + [tokens[j]]
  {
    assert tokens[..j + 1] == tokens[..j] + [tokens[j]];
  }

  lemma UpToEnds(done: seq<string>, tokens: seq<string>)
    ensures UpTo(done, tokens, 0) == done && UpTo(done, tokens, |tokens|) == done + tokens
  {
    assert tokens[..|tokens|] == tokens;
  }

  lemma BadTokenEnds(done: seq<string>, tokens: seq<string>, j: nat)
    requires j < |tokens|
    requires !ValidToken(tokens[j]) || tokens[j] in UpTo(done, tokens, j)
    ensures !OfferOk(done + tokens)
  {
    hide ValidToken, OfferOk;
    var now := UpTo(done, tokens, j);
    var next := UpTo(done, tokens, j + 1);
    UpToStep(done, tokens, j);
    if tokens[j] in now {
      var i: nat :| i < |now| && now[i] == tokens[j];
      assert next[i] == next[|now|];
    }
    BadTokenSpoils(next, |now|);
    assert (done + tokens)[..|next|] == next;
    PrefixSpoils(done + tokens, |next|);
  }

  /** Appending a token to the merged text, with a separator unless it is the first. */
  lemma MergedMore(ts: seq<string>, t: string, merged: string)
    requires OfferOk(ts) && merged == Join(ts, ", ")
    ensures (if merged != "" then merged + ", " else merged) + t == Join(ts + [t], ", ")
  {
    hide Join, OfferOk;
    JoinBlank(ts, ", ");
    JoinSnoc(ts, t, ", ");
    Regroup(merged, ", ", t);
  }

  /** The inner loop: adds the tokens of one line to the offer so far, stopping at the first bad one. */
  method AddTokens(line: string, ghost done: seq<string>, protocols: string, seen: set<string>)
    returns (ok: bool, protocols': string, seen': set<string>)
    requires OfferOk(done) && protocols == Join(done, ", ") && seen == set t | t in done
    ensures ok <==> All(line, IsVisible) && OfferOk(done + Tokens(line))
    ensures ok ==> protocols' == Join(done + Tokens(line), ", ") && seen' == set t | t in done + Tokens(line)
  {
    hide Join, Tokens, Split, IsTokenChar, Trim, OfferOk, UpTo;
    protocols', seen' := protocols, seen;
    if !All(line, IsVisible) {
      return false, protocols', seen';
    }
    var items := Split(line, ',');
    ghost var tokens := Tokens(line);
    UpToEnds(done, tokens);
    for j := 0 to |items|
      invariant OfferOk(UpTo(done, tokens, j))
      invariant protocols' == Join(UpTo(done, tokens, j), ", ") && seen' == set t | t in UpTo(done, tokens, j)
    {
      var token := Trim(items[j], IsOws);
      if token == "" || !All(token, IsTokenChar) || token in seen' {
        BadTokenEnds(done, tokens, j);
        return false, protocols', seen';
      }
      ghost var now := UpTo(done, tokens, j);
      UpToStep(done, tokens, j);
      GoodTokenKeeps(now, token);
      MergedMore(now, token, protocols');
      if protocols' != "" {
        protocols' := protocols' + ", ";
      }
      protocols' := protocols' + token;
      seen' := seen' + {token};
    }
    return true, protocols', seen';
  }

  lemma GoodTokenKeeps(ts: seq<string>, t: string)
    requires OfferOk(ts) && ValidToken(t) && t !in ts
    ensures OfferOk(ts + [t])
  {
    hide ValidToken;
  }

  /** Merges all offered lines into one, or reports the offer as invalid and leaves the map as it was. */
  method NormalizeSubprotocols(headers: HeaderMap) returns (ok: bool)
    modifies headers
    ensures ok <==> OfferOk(Offer(old(headers.fields)))
    ensures headers.fields == if ok then Normalized(old(headers.fields)) else old(headers.fields)
  {
    hide Join, Tokens, TokensOf, Split, OfferOk, IsFieldValue;
    var lines := Values(headers.fields, PROTOCOL);
    var protocols := "";
    var seen: set<string> := {};
    NothingOffered(lines);
    for i := 0 to |lines|
      invariant headers.fields == old(headers.fields)
      invariant OfferOk(TokensOf(lines[..i]))
      invariant protocols == Join(TokensOf(lines[..i]), ", ")
      invariant seen == set t | t in TokensOf(lines[..i])
    {
      TokensOfPieces(lines, i);
      var good: bool;
      good, protocols, seen := AddTokens(lines[i], TokensOf(lines[..i]), protocols, seen);
      if !good {
        SpoiledLine(lines, i);
        return false;
      }
    }
    assert lines[..|lines|] == lines;
    JoinBlank(TokensOf(lines), ", ");
    if protocols != "" {
      OfferIsFieldValue(TokensOf(lines));
      assert IsFieldValue(protocols);
      headers.Insert(PROTOCOL, protocols);
    }
    return true;
  }

  lemma OfferIsFieldValue(ts: seq<string>)
    requires OfferOk(ts)
    ensures IsFieldValue(Join(ts, ", "))
  {
    MergedIsFieldValue(ts);
  }

  lemma NothingOffered(lines: seq<string>)
    ensures TokensOf(lines[..0]) == [] && Join([], ", ") == "" && OfferOk([])
  {
    assert lines[..0] == [];
  }

  lemma LaterSpoils(a: seq<string>, b: seq<string>)
    requires !OfferOk(b) || !OfferOk(a)
    ensures !OfferOk(a + b)
  {
    hide ValidToken;
    if OfferOk(a + b) {
      assert forall k :: 0 <= k < |a| ==> (a + b)[k] == a[k];
      assert forall k :: 0 <= k < |b| ==> (a + b)[|a| + k] == b[k];
    }
  }

  lemma InvisibleLineSpoils(line: string)
    requires !All(line, IsVisible)
    ensures !OfferOk(Tokens(line))
  {
    hide Tokens, ValidToken, IsVisible;
    InvisibleSpoils(line);
  }

  /** A line that cannot be added spoils the whole offer. */
  lemma SpoiledLine(lines: seq<string>, i: nat)
    requires i < |lines|
    requires !(All(lines[i], IsVisible) && OfferOk(TokensOf(lines[..i]) + Tokens(lines[i])))
    ensures !OfferOk(TokensOf(lines))
  {
    hide Tokens, TokensOf, IsVisible, All, OfferOk;
    TokensOfPieces(lines, i);
    if !All(lines[i], IsVisible) {
      InvisibleLineSpoils(lines[i]);
      LaterSpoils(TokensOf(lines[..i]), Tokens(lines[i]));
    }
    LaterSpoils(TokensOf(lines[..i + 1]), TokensOf(lines[i + 1..]));
  }

  // ---- The merged offer parses back ----

  lemma TokenIsPlain(t: string)
    requires ValidToken(t)
    ensures ',' !in t && Tight(t, IsOws)
  {
  }

  lemma TokensOfToken(t: string)
    requires ValidToken(t)
    ensures Tokens(t) == [t]
  {
    hide Split, Trim, ValidToken;
    TokenIsPlain(t);
    SplitNone(t, ',');
    TrimTight(t, IsOws);
  }

  lemma TokensOfSpaced(t: string, rest: string)
    requires ValidToken(t)
    ensures Tokens(t + ", " + rest) == [t] + Tokens(rest)
  {
    hide Split, Trim, ValidToken;
    TokenIsPlain(t);
    SplitNone(t, ',');
    TrimTight(t, IsOws);
    var spaced := [' '] + rest;
    assert t + ", " + rest == t + [','] + spaced;
    SplitAcross(t, ',', spaced);
    SplitCons(' ', rest, ',');
    TrimLeading(' ', Split(rest, ',')[0], IsOws);
    assert Split(spaced, ',')[1..] == Split(rest, ',')[1..];
  }

  lemma {:induction false} JoinParsesBack(ts: seq<string>)
    requires ts != [] && forall k :: 0 <= k < |ts| ==> ValidToken(ts[k])
    ensures Tokens(Join(ts, ", ")) == ts
    decreases |ts|
  {
    hide Tokens, ValidToken;
    if |ts| == 1 {
      TokensOfToken(ts[0]);
    } else {
      JoinParsesBack(ts[1..]);
      TokensOfSpaced(ts[0], Join(ts[1..], ", "));
    }
  }

  /**
   Normalisation prints an acceptable offer so that it parses back: the single merged field splits into exactly the
   tokens of all lines, in order, and normalising once more changes nothing.
   */
  lemma NormalizedRoundTrip(m: Fields)
    requires OfferOk(Offer(m))
    ensures Offer(Normalized(m)) == Offer(m)
    ensures Normalized(Normalized(m)) == Normalized(m)
    ensures |Values(Normalized(m), PROTOCOL)| == if Offer(m) == [] then 0 else 1
    ensures forall n :: n != PROTOCOL ==> Values(Normalized(m), n) == Values(m, n)
  {
    hide Tokens, Join;
    var ts := Offer(m);
    NoTokensNoLines(Values(m, PROTOCOL));
    if ts != [] {
      JoinParsesBack(ts);
      TokensOfOne(Join(ts, ", "));
    }
  }

  lemma NoTokensNoLines(lines: seq<string>)
    ensures TokensOf(lines) == [] <==> lines == []
  {
    if lines != [] {
      assert |Tokens(lines[0])| > 0;
    }
  }

  // ---- Field values ----

  /** What `HeaderValue` accepts: no control characters but the tab, and no delete. */
  predicate IsFieldChar(c: char) {
    (c >= ' ' && c as int != 127) || c == '\t'
  }

  predicate IsFieldValue(t: string) {
    All(t, IsFieldChar)
  }

  lemma FieldValueIff(t: string)
    ensures IsFieldValue(t) <==> forall c :: c in t ==> c == '\t' || (c >= ' ' && c as int != 127)
  {
    if IsFieldValue(t) {
      forall c | c in t
        ensures c == '\t' || (c >= ' ' && c as int != 127)
      {
        var k :| 0 <= k < |t| && t[k] == c;
        assert IsFieldChar(t[k]);
      }
    }
    assert forall k :: 0 <= k < |t| ==> t[k] in t;
  }

  /** A merged offer is always a legal field value, so normalisation fails for no other reason. */
  lemma {:induction false} MergedIsFieldValue(ts: seq<string>)
    requires forall k :: 0 <= k < |ts| ==> ValidToken(ts[k])
    ensures IsFieldValue(Join(ts, ", "))
    decreases |ts|
  {
    if ts != [] {
      MergedIsFieldValue(ts[1..]);
      assert forall c :: IsTokenChar(c) ==> IsFieldChar(c);
    }
  }

  // ---- The handshake ----

  datatype Version = Http10 | Http11 | Http2

  /** A request without its body. Of its extensions only the names are kept. */
  class Request {
    var name: string
    var version: Version
    var uri: Uris.Uri
    var extensions: set<string>
    const headers: HeaderMap

    constructor (name: string, version: Version, uri: Uris.Uri, extensions: set<string>, headers: HeaderMap)
      ensures this.name == name && this.version == version && this.uri == uri && this.extensions == extensions
      ensures this.headers == headers
    {
      this.name, this.version, this.uri, this.extensions, this.headers := name, version, uri, extensions, headers;
    }
  }

  /** Tungstenite's own check of a rewritten request, from its method, version and fields. */
  type ServerCheck = (string, Version, Fields) -> bool

  function First(vs: seq<string>): Option<string> {
    if vs == [] then None else Some(vs[0])
  }

  /** The handshake fields in canonical form; every other field stays. */
  function Written(m: Fields, key: Option<string>, protocol: Option<string>): Fields {
    WithProtocol(WithKey(WithFixed(m), key), protocol)
  }

  function WithFixed(m: Fields): Fields {
    (m - {EXTENSIONS} - {KEY})["connection" := ["Upgrade"]]["upgrade" := ["websocket"]][VERSION := ["13"]]
  }

  function WithKey(m: Fields, key: Option<string>): Fields {
    if key.Some? then m[KEY := [key.value]] else m
  }

  function WithProtocol(m: Fields, protocol: Option<string>): Fields {
    if protocol.Some? then m[PROTOCOL := [protocol.value]] else m
  }

  /** The fields after `response`. What they are, name by name, is `RespondedValues`. */
  function Rewritten(m: Fields, mode: Mode): Fields {
    Written(Stripped(Normalized(m)), if mode.Upgrade? then First(Values(m, KEY)) else None,
            if Offer(m) == [] then None else Some(Join(Offer(m), ", ")))
  }

  /** When the client's request can be turned into an upstream handshake. */
  predicate Acceptable(m: Fields, mode: Mode, name: string, version: Version, accepts: ServerCheck) {
    && Values(m, VERSION) == ["13"]
    && (mode.Upgrade? ==> version == Http11 && |Values(m, KEY)| == 1)
    && OfferOk(Offer(m))
    && (mode.Upgrade? ==> accepts(name, version, Rewritten(m, mode)))
  }

  /** The fields after `response`: hop-by-hop fields gone, the canonical handshake fields in their place. */
  function RespondedValues(m: Fields, mode: Mode, n: string): seq<string> {
    if n == "connection" then ["Upgrade"]
    else if n == "upgrade" then ["websocket"]
    else if n == VERSION then ["13"]
    else if n == KEY then (if mode.Upgrade? then Values(m, KEY) else [])
    else if n == PROTOCOL then (if Offer(m) == [] then [] else [Join(Offer(m), ", ")])
    else if n == EXTENSIONS then []
    else if EndToEnd(m, n) then Values(m, n)
    else []
  }

  /** The fields of the upstream request: as above, with the upstream's host and a fresh key where there was none. */
  function UpstreamValues(m: Fields, mode: Mode, host: Option<string>, freshKey: string, n: string): seq<string> {
    if n == "host" then (if host.Some? then [host.value] else [])
    else if n == KEY && mode.ExtendedConnect? then [freshKey]
    else RespondedValues(m, mode, n)
  }

  lemma NormalizedKeepsOptions(m: Fields)
    ensures forall n :: Nominated(Normalized(m), n) <==> Nominated(m, n)
  {
    assert Options(Normalized(m)) == Options(m);
  }

  lemma StrippedValues(m: Fields, n: string)
    ensures Values(Stripped(m), n) == if EndToEnd(m, n) then Values(m, n) else []
  {
  }

  lemma StrippedNormalized(m: Fields, n: string)
    requires OfferOk(Offer(m))
    ensures n != PROTOCOL ==> Values(Stripped(Normalized(m)), n) == if EndToEnd(m, n) then Values(m, n) else []
    ensures Offer(m) == [] ==> Values(Stripped(Normalized(m)), PROTOCOL) == []
  {
    hide Stripped, Normalized, Offer, OfferOk, Nominated;
    NormalizedRoundTrip(m);
    NormalizedKeepsOptions(m);
    StrippedValues(Normalized(m), n);
    StrippedValues(Normalized(m), PROTOCOL);
  }

  lemma FixedValues(m: Fields, n: string)
    ensures Values(WithFixed(m), n) ==
            if n == "connection" then ["Upgrade"]
            else if n == "upgrade" then ["websocket"]
            else if n == VERSION then ["13"]
            else if n == KEY || n == EXTENSIONS then []
            else Values(m, n)
  {
  }

  lemma OptionalValues(m: Fields, key: Option<string>, protocol: Option<string>, n: string)
    ensures Values(WithProtocol(WithKey(m, key), protocol), n) ==
            if n == PROTOCOL && protocol.Some? then [protocol.value]
            else if n == KEY && key.Some? then [key.value]
            else Values(m, n)
  {
  }

  /** The rewritten fields, name by name. */
  lemma RewrittenValues(m: Fields, mode: Mode, n: string)
    requires OfferOk(Offer(m)) && (mode.Upgrade? ==> |Values(m, KEY)| == 1)
    ensures Values(Rewritten(m, mode), n) == RespondedValues(m, mode, n)
  {
    hide Stripped, Normalized, Offer, OfferOk, EndToEnd, Join, WithFixed, WithKey, WithProtocol, Values;
    var s := Stripped(Normalized(m));
    StrippedNormalized(m, n);
    FixedValues(s, n);
    var protocol := if Offer(m) == [] then None else Some(Join(Offer(m), ", "));
    OptionalValues(WithFixed(s), if mode.Upgrade? then First(Values(m, KEY)) else None, protocol, n);
  }

  method WriteHandshake(headers: HeaderMap, key: Option<string>, protocol: Option<string>)
    modifies headers
    ensures headers.fields == Written(old(headers.fields), key, protocol)
  {
    headers.Remove(EXTENSIONS);
    headers.Remove(KEY);
    headers.Insert("connection", "Upgrade");
    headers.Insert("upgrade", "websocket");
    headers.Insert(VERSION, "13");
    if key.Some? {
      headers.Insert(KEY, key.value);
    }
    if protocol.Some? {
      headers.Insert(PROTOCOL, protocol.value);
    }
  }

  /** `WsMode::response`: checks the request and rewrites its fields in place. */
  method Respond(req: Request, mode: Mode, accepts: ServerCheck) returns (ok: bool)
    modifies req.headers
    ensures ok <==> Acceptable(old(req.headers.fields), mode, req.name, req.version, accepts)
    ensures ok ==> req.headers.fields == Rewritten(old(req.headers.fields), mode)
    ensures ok ==> forall n :: Values(req.headers.fields, n) == RespondedValues(old(req.headers.fields), mode, n)
  {
    hide Stripped, Offer, OfferOk, Normalized, Join, Written, RespondedValues;
    var headers := req.headers;
    ghost var m := headers.fields;
    var versions := Values(headers.fields, VERSION);
    if |versions| != 1 || versions[0] != "13" {
      return false;
    }
    var key: Option<string> := None;
    if mode == Upgrade {
      if req.version != Http11 {
        return false;
      }
      var keys := Values(headers.fields, KEY);
      if |keys| != 1 {
        return false;
      }
      key := Some(keys[0]);
    }
    var normalized := NormalizeSubprotocols(headers);
    if !normalized {
      return false;
    }
    NormalizedValue(m);
    var protocol := First(Values(headers.fields, PROTOCOL));
    StripHopByHop(headers);
    WriteHandshake(headers, key, protocol);
    forall n
      ensures Values(headers.fields, n) == RespondedValues(m, mode, n)
    {
      RewrittenValues(m, mode, n);
    }
    ok := mode == ExtendedConnect || accepts(req.name, req.version, headers.fields);
  }

  lemma NormalizedValue(m: Fields)
    requires OfferOk(Offer(m))
    ensures Values(Normalized(m), PROTOCOL) == if Offer(m) == [] then [] else [Join(Offer(m), ", ")]
  {
    NormalizedRoundTrip(m);
  }

  /** Whether the rewritten request can be sent on: its URI composes, and host and key are legal field values. */
  predicate Buildable(base: Uris.Uri, inbound: Uris.Uri, mode: Mode, freshKey: string, g: Uris.Grammar) {
    && Uris.UpstreamUri(base, inbound, None, g).Some?
    && (base.authority.Some? ==> IsFieldValue(base.authority.value))
    && (mode.ExtendedConnect? ==> IsFieldValue(freshKey))
  }

  /** `build_ws_request`: the same request for the upstream, as HTTP/1.1 GET. */
  method BuildWsRequest(req: Request, base: Uris.Uri, mode: Mode, freshKey: string, g: Uris.Grammar)
    returns (ok: bool)
    modifies req, req.headers
    ensures ok <==> Buildable(base, old(req.uri), mode, freshKey, g)
    ensures ok <==>
            && Uris.UpstreamUri(base, old(req.uri), None, g).Some?
            && (base.authority.Some? ==>
                  forall c :: c in base.authority.value ==> c == '\t' || (c >= ' ' && c as int != 127))
            && (mode == ExtendedConnect ==> forall c :: c in freshKey ==> c == '\t' || (c >= ' ' && c as int != 127))
    ensures ok ==> Uris.UpstreamUri(base, old(req.uri), None, g) == Some(req.uri)
    ensures ok ==> req.name == "GET" && req.version == Http11 && req.extensions == {}
    ensures ok ==> forall n :: Values(req.headers.fields, n) ==
                     if n == "host" && base.authority.Some? then [base.authority.value]
                     else if n == KEY && mode == ExtendedConnect then [freshKey]
                     else Values(old(req.headers.fields), n)
  {
    hide IsFieldValue;
    FieldValueIff(freshKey);
    if base.authority.Some? {
      FieldValueIff(base.authority.value);
    }
    var uri := Uris.UpstreamUri(base, req.uri, None, g);
    Uris.UpstreamOrigin(base, req.uri, None, g);
    if uri.None? {
      return false;
    }
    if uri.value.authority.Some? {
      if !IsFieldValue(uri.value.authority.value) {
        return false;
      }
      req.headers.Insert("host", uri.value.authority.value);
    }
    if mode == ExtendedConnect {
      if !IsFieldValue(freshKey) {
        return false;
      }
      req.headers.Insert(KEY, freshKey);
    }
    req.uri := uri.value;
    req.name := "GET";
    req.version := Http11;
    req.extensions := {};
    return true;
  }

  /** The first half of `upgrade`: refused as a bad request, failed with an error, or ready to be sent upstream. */
  datatype Handshaken = BadRequest | Failed | Ready

  /**
   End to end: an acceptable request becomes an upstream request with exactly one Connection, Upgrade and version
   field, the client's key or a fresh one, at most one protocol field, no extensions, the upstream's host, and every
   other field that is neither hop-by-hop nor nominated, unchanged. Any other request is refused.
   */
  method UpgradeRequest(req: Request, base: Uris.Uri, mode: Mode, accepts: ServerCheck, freshKey: string,
                        g: Uris.Grammar)
    returns (r: Handshaken)
    modifies req, req.headers
    ensures r != BadRequest <==>
            var m := old(req.headers.fields);
            var ts := TokensOf(Values(m, "sec-websocket-protocol"));
            && Values(m, "sec-websocket-version") == ["13"]
            && (forall k :: 0 <= k < |ts| ==> ts[k] != "" && All(ts[k], IsTokenChar))
            && (forall i, j :: 0 <= i < j < |ts| ==> ts[i] != ts[j])
            && (mode == Upgrade ==>
                  && old(req.version) == Http11 && |Values(m, "sec-websocket-key")| == 1
                  && accepts(old(req.name), Http11, Rewritten(m, Upgrade)))
    ensures r != BadRequest ==>
              (r.Ready? <==> Buildable(base, old(req.uri), mode, freshKey, g))
    ensures r.Ready? ==> Uris.UpstreamUri(base, old(req.uri), None, g) == Some(req.uri)
    ensures r.Ready? ==> req.name == "GET" && req.version == Http11 && req.extensions == {}
    ensures r.Ready? ==> forall n :: Values(req.headers.fields, n) ==
                           UpstreamValues(old(req.headers.fields), mode, base.authority, freshKey, n)
  {
    hide Acceptable, Buildable, EndToEnd, UpstreamValues, RespondedValues, TokensOf, Rewritten;
    AcceptableIff(req.headers.fields, mode, req.name, req.version, accepts);
    ghost var m := req.headers.fields;
    var ok := Respond(req, mode, accepts);
    if !ok {
      return BadRequest;
    }
    ghost var before := req.headers.fields;
    ok := BuildWsRequest(req, base, mode, freshKey, g);
    forall n
      ensures Values(before, n) == RespondedValues(m, mode, n) ==>
                (if n == "host" && base.authority.Some? then [base.authority.value]
                 else if n == KEY && mode == ExtendedConnect then [freshKey]
                 else Values(before, n)) == UpstreamValues(m, mode, base.authority, freshKey, n)
    {
      UpstreamFromResponded(m, mode, base.authority, freshKey, n);
    }
    r := if ok then Ready else Failed;
  }

  lemma UpstreamFromResponded(m: Fields, mode: Mode, host: Option<string>, freshKey: string, n: string)
    ensures UpstreamValues(m, mode, host, freshKey, n) ==
            if n == "host" && host.Some? then [host.value]
            else if n == KEY && mode == ExtendedConnect then [freshKey]
            else RespondedValues(m, mode, n)
  {
    hide EndToEnd, Offer, Join;
    HostIsHopByHop();
  }

  lemma OfferOkIff(ts: seq<string>)
    ensures OfferOk(ts) <==>
            && (forall k :: 0 <= k < |ts| ==> ts[k] != "" && All(ts[k], IsTokenChar))
            && (forall i, j :: 0 <= i < j < |ts| ==> ts[i] != ts[j])
  {
    hide All;
    assert forall k :: 0 <= k < |ts| ==> (ValidToken(ts[k]) <==> ts[k] != "" && All(ts[k], IsTokenChar));
  }

  /** When a request can be turned into an upstream handshake, in terms of its field values. */
  lemma AcceptableIff(m: Fields, mode: Mode, name: string, version: Version, accepts: ServerCheck)
    ensures var ts := TokensOf(Values(m, "sec-websocket-protocol"));
            Acceptable(m, mode, name, version, accepts) <==>
            && Values(m, "sec-websocket-version") == ["13"]
            && (forall k :: 0 <= k < |ts| ==> ts[k] != "" && All(ts[k], IsTokenChar))
            && (forall i, j :: 0 <= i < j < |ts| ==> ts[i] != ts[j])
            && (mode == Upgrade ==>
                  && version == Http11 && |Values(m, "sec-websocket-key")| == 1
                  && accepts(name, Http11, Rewritten(m, Upgrade)))
  {
    hide TokensOf, Rewritten, IsTokenChar, OfferOk, Values, All;
    assert VERSION == "sec-websocket-version" && KEY == "sec-websocket-key" && PROTOCOL == "sec-websocket-protocol";
    assert Offer(m) == TokensOf(Values(m, "sec-websocket-protocol"));
    OfferOkIff(Offer(m));
  }

  lemma HostIsHopByHop()
    ensures forall m: Fields :: !EndToEnd(m, "host")
  {
    assert HOP_BY_HOP[10] == "host";
  }
}
