/** Upstream URI composition and Beacon routing (`upstream_uri` and `is_cl_path` in `src/proxy.rs`). */
module Uris {
  import opened Wrappers
  import opened Strings

  /** A parsed URI keeps its path and query as one text; the query starts at the first question mark. */
  datatype Uri = Uri(scheme: Option<string>, authority: Option<string>, pathAndQuery: string)

  function FindChar(s: string, c: char): (i: nat)
    ensures i <= |s| && c !in s[..i] && (i < |s| ==> s[i] == c)
  {
    if s == "" || s[0] == c then 0 else 1 + FindChar(s[1..], c)
  }

  /** Only the authority form, the target of a CONNECT, has no path at all; elsewhere an empty one reads as a slash. */
  function Path(u: Uri): string {
    var p := u.pathAndQuery[..FindChar(u.pathAndQuery, '?')];
    if u.pathAndQuery == "" && u.scheme.None? then "" else if p == "" then "/" else p
  }

  function Query(u: Uri): Option<string> {
    var i := FindChar(u.pathAndQuery, '?');
    if i == |u.pathAndQuery| then None else Some(u.pathAndQuery[i + 1..])
  }

  /** Parsing a path and query drops a fragment. */
  function ParsePathAndQuery(s: string): string {
    s[..FindChar(s, '#')]
  }

  function TrimEndSlashes(p: string): string {
    if p != "" && p[|p| - 1] == '/' then TrimEndSlashes(p[..|p| - 1]) else p
  }

  /** All trailing slashes go, and nothing else. */
  lemma {:induction false} TrimEndSlashesIff(p: string, t: string)
    ensures TrimEndSlashes(p) == t <==>
            t <= p && (t == "" || t[|t| - 1] != '/') && forall k :: |t| <= k < |p| ==> p[k] == '/'
    decreases |p|
  {
    if p != "" && p[|p| - 1] == '/' {
      TrimEndSlashesIff(p[..|p| - 1], t);
      if t == p {
        assert t[|t| - 1] == '/';
      }
    }
  }

  /** What http's parser accepts: characters allowed before and after the question mark, and a length. */
  datatype Grammar = Grammar(inPath: char -> bool, inQuery: char -> bool, limit: nat)

  predicate Legal(text: string, g: Grammar) {
    |text| <= g.limit && CharsLegal(text, g)
  }

  predicate CharsLegal(text: string, g: Grammar) {
    var cut := ParsePathAndQuery(text);
    var i := FindChar(cut, '?');
    All(cut[..i], g.inPath) && (i < |cut| ==> All(cut[i + 1..], g.inQuery))
  }

  /** `Uri::from_parts` with a path: a scheme needs an authority and an authority needs a scheme. */
  function FromParts(u: Uri): Option<Uri> {
    if u.scheme.Some? == u.authority.Some? then Some(u) else None
  }

  /** Composes the upstream URI under http's grammar of a path and query. */
  function UpstreamUri(base: Uri, inbound: Uri, overridePath: Option<string>, g: Grammar): Option<Uri> {
    var inboundPath := if overridePath.Some? then overridePath.value else Path(inbound);
    var inboundQuery := Query(inbound);
    if overridePath.None? && inboundPath == "/" && inboundQuery.None? then
      Some(base)
    else if
      && overridePath.None? && Path(base) == "/" && Query(base).None?
      && inboundPath != "" && inboundPath[0] == '/'
    then
      FromParts(base.(pathAndQuery := inbound.pathAndQuery))
    else
      var path :=
        if overridePath.None? && inboundPath == "/" then Path(base)
        else if Path(base) == "/" then inboundPath
        else TrimEndSlashes(Path(base)) + inboundPath;
      var text := WithQueries(path, Query(base), inboundQuery);
      if Legal(text, g) then FromParts(base.(pathAndQuery := ParsePathAndQuery(text))) else None
  }

  function WithQueries(path: string, baseQuery: Option<string>, inboundQuery: Option<string>): string {
    match (baseQuery, inboundQuery)
    case (Some(bq), Some(iq)) =>
      if bq != "" && iq != "" then path + "?" + bq + "&" + iq else path + "?" + bq + iq
    case (Some(bq), None) => path + "?" + bq
    case (None, Some(iq)) => path + "?" + iq
    case (None, None) => path
  }

  // ---- What the composition means ----

  /** The general rule: a bare root leaves the base path alone, anything else is appended to it. */
  function JoinedPath(base: string, inbound: string, keepBase: bool): string {
    if keepBase then base else TrimEndSlashes(base) + inbound
  }

  /** The parameters of a query, in order. */
  function Params(q: Option<string>): seq<string> {
    if q.None? || q.value == "" then [] else Split(q.value, '&')
  }

  predicate NoFragment(u: Uri) {
    '#' !in u.pathAndQuery
  }

  /** What parsing leaves: no fragment, and a path unless there is an authority alone. */
  predicate IsParsed(u: Uri) {
    NoFragment(u) && (u.pathAndQuery == "" && u.scheme.None? ==> u.authority.Some?)
  }

  /** A path the composition can be given: rooted, and free of the characters that end a path. */
  predicate IsPath(p: string) {
    p != "" && p[0] == '/' && '?' !in p && '#' !in p
  }

  lemma {:induction false} FindCharAt(s: string, c: char, i: nat)
    requires i <= |s| && c !in s[..i] && (i < |s| ==> s[i] == c)
    ensures FindChar(s, c) == i
    decreases i
  {
    if i > 0 {
      assert s[0] == s[..i][0];
      assert s[1..][..i - 1] == s[..i][1..];
      FindCharAt(s[1..], c, i - 1);
    }
  }

  lemma {:induction false} TrimEndSlashesIn(p: string, c: char)
    requires c !in p
    ensures c !in TrimEndSlashes(p)
    decreases |p|
  {
    if p != "" && p[|p| - 1] == '/' {
      TrimEndSlashesIn(p[..|p| - 1], c);
    }
  }

  /** Splitting `path ? query` at its first question mark gives the two back. */
  lemma Resplit(u: Uri, path: string, q: string)
    requires path != "" && '?' !in path && '#' !in path && '#' !in q
    requires u.pathAndQuery == ParsePathAndQuery(path + "?" + q)
    ensures Path(u) == path && Query(u) == Some(q)
  {
    var s := path + "?" + q;
    FindCharAt(s, '#', |s|);
    assert s[..|s|] == s;
    assert s[..|path|] == path;
    FindCharAt(s, '?', |path|);
    assert s[|path| + 1..] == q;
  }

  lemma ResplitBare(u: Uri, path: string)
    requires path != "" && '?' !in path && '#' !in path
    requires u.pathAndQuery == ParsePathAndQuery(path)
    ensures Path(u) == path && Query(u) == None
  {
    FindCharAt(path, '#', |path|);
    assert path[..|path|] == path;
    FindCharAt(path, '?', |path|);
  }

  lemma PathClean(u: Uri)
    requires NoFragment(u)
    ensures '?' !in Path(u) && '#' !in Path(u)
    ensures Path(u) == "" <==> u.pathAndQuery == "" && u.scheme.None?
    ensures Query(u).Some? ==> '#' !in Query(u).value
  {
    var i := FindChar(u.pathAndQuery, '?');
    assert forall c :: c in u.pathAndQuery[..i] ==> c in u.pathAndQuery;
    assert i < |u.pathAndQuery| ==> forall c :: c in u.pathAndQuery[i + 1..] ==> c in u.pathAndQuery;
  }

  function MergedQuery(bq: Option<string>, iq: Option<string>): Option<string> {
    if bq.None? then iq
    else if iq.None? then bq
    else if bq.value == "" || iq.value == "" then Some(bq.value + iq.value)
    else Some(bq.value + "&" + iq.value)
  }

  lemma MergedParams(bq: Option<string>, iq: Option<string>)
    ensures Params(MergedQuery(bq, iq)) == Params(bq) + Params(iq)
  {
    if bq.Some? && iq.Some? && bq.value != "" && iq.value != "" {
      SplitAcross(bq.value, '&', iq.value);
    } else if bq.Some? && iq.Some? {
      assert bq.value + "" == bq.value && "" + iq.value == iq.value;
    }
  }

  lemma RootTrims()
    ensures TrimEndSlashes("/") == ""
  {
    assert "/"[..0] == "";
  }

  /** Formatting a path with its queries and parsing the text back gives the path and the merged query. */
  lemma WithQueriesResplits(u: Uri, path: string, bq: Option<string>, iq: Option<string>)
    requires path != "" && '?' !in path && '#' !in path
    requires (bq.Some? ==> '#' !in bq.value) && (iq.Some? ==> '#' !in iq.value)
    requires u.pathAndQuery == ParsePathAndQuery(WithQueries(path, bq, iq))
    ensures Path(u) == path && Query(u) == MergedQuery(bq, iq)
  {
    hide Path, Query, ParsePathAndQuery;
    var merged := MergedQuery(bq, iq);
    if merged.None? {
      ResplitBare(u, path);
    } else {
      if bq.Some? && iq.Some? {
        assert path + "?" + bq.value + "&" + iq.value == path + "?" + (bq.value + "&" + iq.value);
        assert path + "?" + bq.value + iq.value == path + "?" + (bq.value + iq.value);
      }
      Resplit(u, path, merged.value);
    }
  }

  /** The joined path is a path again, and the shortcuts for a root are instances of the general rule. */
  lemma JoinedPathClean(base: string, p: string, keepBase: bool)
    requires '?' !in base && '#' !in base && IsPath(p)
    ensures var path := JoinedPath(base, p, keepBase);
            '?' !in path && '#' !in path && (path == "" ==> base == "" && keepBase)
    ensures base == "/" ==> JoinedPath(base, p, false) == p
  {
    hide TrimEndSlashes;
    TrimEndSlashesIn(base, '?');
    TrimEndSlashesIn(base, '#');
    RootTrims();
    assert "" + p == p;
  }

  /** The text of the composition, in the general form. */
  function ComposedText(base: Uri, inbound: Uri, overridePath: Option<string>): string {
    var p := if overridePath.Some? then overridePath.value else Path(inbound);
    WithQueries(JoinedPath(Path(base), p, overridePath.None? && p == "/"), Query(base), Query(inbound))
  }

  /**
   Composition, for every base and every rooted inbound path, with or without an override: whichever branch is taken,
   parsing the result back gives the base's scheme and authority, the joined path, and the base's query parameters
   followed by the inbound ones. Nothing is lost, repeated or run together.
   */
  lemma Composition(base: Uri, inbound: Uri, overridePath: Option<string>, g: Grammar)
    requires IsParsed(base) && IsParsed(inbound)
    requires IsPath(if overridePath.Some? then overridePath.value else Path(inbound))
    ensures var r := UpstreamUri(base, inbound, overridePath, g);
            var p := if overridePath.Some? then overridePath.value else Path(inbound);
            && (r.Some? ==>
                  && r.value.scheme == base.scheme && r.value.authority == base.authority
                  && Path(r.value) ==
                     (if overridePath.None? && p == "/" then Path(base) else TrimEndSlashes(Path(base)) + p)
                  && (Query(r.value).None? <==> Query(base).None? && Query(inbound).None?)
                  && Query(r.value) == MergedQuery(Query(base), Query(inbound))
                  && Params(Query(r.value)) == Params(Query(base)) + Params(Query(inbound)))
  {
    hide Path, Query, ParsePathAndQuery, Params, NoFragment, WithQueries, IsPath;
    var r := UpstreamUri(base, inbound, overridePath, g);
    var p := if overridePath.Some? then overridePath.value else Path(inbound);
    var keep := overridePath.None? && p == "/";
    MergedParams(Query(base), Query(inbound));
    PathClean(base);
    PathClean(inbound);
    JoinedPathClean(Path(base), p, keep);
    assert JoinedPath(Path(base), p, keep) == if keep then Path(base) else TrimEndSlashes(Path(base)) + p;
    hide TrimEndSlashes, JoinedPath;
    JoinedPathChoice(Path(base), p, keep);
    if keep && Query(inbound).None? {
      assert r == Some(base);
    } else if overridePath.None? && Path(base) == "/" && Query(base).None? && p != "" && p[0] == '/' {
      SameText(base.(pathAndQuery := inbound.pathAndQuery), inbound);
    } else if r.Some? {
      WithQueriesResplits(base.(pathAndQuery := ParsePathAndQuery(ComposedText(base, inbound, overridePath))),
                          JoinedPath(Path(base), p, keep), Query(base), Query(inbound));
    }
  }

  /** Composing fails exactly when a base that must be taken apart, or a text that must be parsed, is not legal. */
  lemma CompositionFails(base: Uri, inbound: Uri, overridePath: Option<string>, g: Grammar)
    requires IsPath(if overridePath.Some? then overridePath.value else Path(inbound))
    ensures var p := if overridePath.Some? then overridePath.value else Path(inbound);
            var kept := overridePath.None? && p == "/" && Query(inbound).None?;
            var replaced := overridePath.None? && Path(base) == "/" && Query(base).None?;
            UpstreamUri(base, inbound, overridePath, g).None? <==>
            !kept && (base.scheme.Some? != base.authority.Some?
                      || (!replaced && !Legal(ComposedText(base, inbound, overridePath), g)))
  {
    hide Path, Query, ParsePathAndQuery, WithQueries, TrimEndSlashes, JoinedPath;
    var p := if overridePath.Some? then overridePath.value else Path(inbound);
    JoinedPathChoice(Path(base), p, overridePath.None? && p == "/");
  }

  // ---- Legal parts compose to a legal text ----

  /** The characters composing itself puts in are allowed where it puts them. */
  predicate JoinsLegally(g: Grammar) {
    g.inPath('/') && g.inQuery('&')
  }

  lemma PartsLegal(u: Uri, g: Grammar)
    requires NoFragment(u) && CharsLegal(u.pathAndQuery, g) && g.inPath('/')
    ensures All(Path(u), g.inPath) && (Query(u).Some? ==> All(Query(u).value, g.inQuery))
  {
    FindCharAt(u.pathAndQuery, '#', |u.pathAndQuery|);
    assert ParsePathAndQuery(u.pathAndQuery) == u.pathAndQuery;
  }

  lemma {:induction false} TrimEndSlashesAll(p: string, allowed: char -> bool)
    requires All(p, allowed)
    ensures All(TrimEndSlashes(p), allowed)
    decreases |p|
  {
    if p != "" && p[|p| - 1] == '/' {
      TrimEndSlashesAll(p[..|p| - 1], allowed);
    }
  }

  /** Putting a path and queries together keeps every character in its place. */
  lemma WithQueriesLegal(path: string, bq: Option<string>, iq: Option<string>, g: Grammar)
    requires path != "" && '?' !in path && '#' !in path && JoinsLegally(g)
    requires (bq.Some? ==> '#' !in bq.value) && (iq.Some? ==> '#' !in iq.value)
    requires All(path, g.inPath)
    requires (bq.Some? ==> All(bq.value, g.inQuery)) && (iq.Some? ==> All(iq.value, g.inQuery))
    ensures CharsLegal(WithQueries(path, bq, iq), g)
  {
    hide ParsePathAndQuery, WithQueries;
    var text := WithQueries(path, bq, iq);
    var u := Uri(None, None, ParsePathAndQuery(text));
    WithQueriesResplits(u, path, bq, iq);
  }

  /** A path and a query, apart or together, are legal exactly when each character is allowed where it stands. */
  lemma CharsLegalIff(path: string, q: string, g: Grammar)
    requires '?' !in path && '#' !in path && '#' !in q
    ensures CharsLegal(path, g) <==> forall k :: 0 <= k < |path| ==> g.inPath(path[k])
    ensures CharsLegal(path + "?" + q, g) <==>
            (forall k :: 0 <= k < |path| ==> g.inPath(path[k])) && forall k :: 0 <= k < |q| ==> g.inQuery(q[k])
  {
    FindCharAt(path, '#', |path|);
    FindCharAt(path, '?', |path|);
    assert path[..|path|] == path;
    var s := path + "?" + q;
    FindCharAt(s, '#', |s|);
    assert s[..|s|] == s && s[..|path|] == path;
    FindCharAt(s, '?', |path|);
    assert s[|path| + 1..] == q;
  }

  /** Composing legal parts gives a legal text, unless it is too long. */
  lemma ComposedLegal(base: Uri, inbound: Uri, overridePath: Option<string>, g: Grammar)
    requires IsParsed(base) && IsParsed(inbound) && JoinsLegally(g) && Path(base) != ""
    requires CharsLegal(base.pathAndQuery, g) && CharsLegal(inbound.pathAndQuery, g)
    requires IsPath(if overridePath.Some? then overridePath.value else Path(inbound))
    requires overridePath.Some? ==> All(overridePath.value, g.inPath)
    ensures var text := ComposedText(base, inbound, overridePath); Legal(text, g) <==> |text| <= g.limit
  {
    hide Path, Query, ParsePathAndQuery, CharsLegal, WithQueries, TrimEndSlashes, IsPath;
    var p := if overridePath.Some? then overridePath.value else Path(inbound);
    var keep := overridePath.None? && p == "/";
    PathClean(base);
    PathClean(inbound);
    PartsLegal(base, g);
    PartsLegal(inbound, g);
    TrimEndSlashesAll(Path(base), g.inPath);
    JoinedPathClean(Path(base), p, keep);
    WithQueriesLegal(JoinedPath(Path(base), p, keep), Query(base), Query(inbound), g);
  }

  /** For legal parts, then, composing fails only for a base that cannot be taken apart or on the length. */
  lemma LegalCompositionFails(base: Uri, inbound: Uri, overridePath: Option<string>, g: Grammar)
    requires IsParsed(base) && IsParsed(inbound) && JoinsLegally(g)
    requires CharsLegal(base.pathAndQuery, g) && CharsLegal(inbound.pathAndQuery, g)
    requires IsPath(if overridePath.Some? then overridePath.value else Path(inbound))
    requires overridePath.Some? ==> All(overridePath.value, g.inPath)
    ensures var p := if overridePath.Some? then overridePath.value else Path(inbound);
            var kept := overridePath.None? && p == "/" && Query(inbound).None?;
            var replaced := overridePath.None? && Path(base) == "/" && Query(base).None?;
            UpstreamUri(base, inbound, overridePath, g).None? <==>
            !kept && (base.scheme.Some? != base.authority.Some?
                      || (!replaced && |ComposedText(base, inbound, overridePath)| > g.limit))
  {
    hide Path, Query, CharsLegal, Legal, ComposedText, UpstreamUri, IsPath;
    CompositionFails(base, inbound, overridePath, g);
    PathClean(base);
    if Path(base) != "" {
      ComposedLegal(base, inbound, overridePath, g);
    }
  }

  lemma UpstreamOrigin(base: Uri, inbound: Uri, overridePath: Option<string>, g: Grammar)
    ensures var r := UpstreamUri(base, inbound, overridePath, g);
            r.Some? ==> r.value.scheme == base.scheme && r.value.authority == base.authority
  {
    hide Path, Query, ParsePathAndQuery, WithQueries, TrimEndSlashes;
  }

  /** The path `UpstreamUri` picks in its general branch. */
  lemma JoinedPathChoice(base: string, p: string, keepBase: bool)
    ensures JoinedPath(base, p, keepBase) ==
            if keepBase then base else if base == "/" then p else TrimEndSlashes(base) + p
  {
    RootTrims();
    assert "" + p == p;
  }

  lemma SameText(r: Uri, inbound: Uri)
    requires r.pathAndQuery == inbound.pathAndQuery && (Path(inbound) == "/" ==> Query(inbound).Some?)
    requires Path(inbound) != ""
    ensures Path(r) == Path(inbound) && Query(r) == Query(inbound)
  {
  }

  // ---- Beacon paths ----

  const CL_SEGMENTS := ["eth", "teku", "prysm", "nimbus", "lodestar", "lighthouse"]

  /** The first segment is looked up by its length before its text is compared. */
  predicate IsClPath(path: string) {
    && path != "" && path[0] == '/'
    && var remainder := path[1..];
    && var segment := remainder[..FindChar(remainder, '/')];
    && match |segment|
       case 3 => segment == "eth"
       case 4 => segment == "teku"
       case 5 => segment == "prysm"
       case 6 => segment == "nimbus"
       case 8 => segment == "lodestar"
       case 10 => segment == "lighthouse"
       case _ => false
  }

  /** `name` is the first segment of `path`. */
  predicate FirstSegmentIs(path: string, name: string) {
    path == "/" + name || "/" + name + "/" <= path
  }

  lemma FirstSegmentFound(path: string, name: string)
    requires '/' !in name
    ensures FirstSegmentIs(path, name) <==>
            path != "" && path[0] == '/' && path[1..][..FindChar(path[1..], '/')] == name
  {
    if FirstSegmentIs(path, name) {
      assert path[1..][..|name|] == name;
      FindCharAt(path[1..], '/', |name|);
    }
    if path != "" && path[0] == '/' && path[1..][..FindChar(path[1..], '/')] == name {
      assert path[..|name| + 1] == "/" + name;
      assert |name| < |path[1..]| ==> path[..|name| + 2] == "/" + name + "/";
    }
  }

  lemma SomeSegment(path: string)
    ensures IsClPath(path) <==> exists k :: 0 <= k < |CL_SEGMENTS| && FirstSegmentIs(path, CL_SEGMENTS[k])
  {
    hide FirstSegmentIs;
    forall k | 0 <= k < |CL_SEGMENTS|
      ensures FirstSegmentIs(path, CL_SEGMENTS[k]) ==> IsClPath(path)
    {
      FirstSegmentFound(path, CL_SEGMENTS[k]);
    }
    if IsClPath(path) {
      var segment := path[1..][..FindChar(path[1..], '/')];
      assert segment in CL_SEGMENTS;
      var k :| 0 <= k < |CL_SEGMENTS| && CL_SEGMENTS[k] == segment;
      FirstSegmentFound(path, segment);
    }
  }

  /** A Beacon path is one of six segments after the leading slash, alone or followed by a slash. */
  lemma IsClPathIff(path: string)
    ensures IsClPath(path) <==>
            || FirstSegmentIs(path, "eth") || FirstSegmentIs(path, "teku") || FirstSegmentIs(path, "prysm")
            || FirstSegmentIs(path, "nimbus") || FirstSegmentIs(path, "lodestar") || FirstSegmentIs(path, "lighthouse")
  {
    hide FirstSegmentIs, IsClPath;
    SomeSegment(path);
    assert |CL_SEGMENTS| == 6 && CL_SEGMENTS[0] == "eth" && CL_SEGMENTS[1] == "teku" && CL_SEGMENTS[2] == "prysm";
    assert CL_SEGMENTS[3] == "nimbus" && CL_SEGMENTS[4] == "lodestar" && CL_SEGMENTS[5] == "lighthouse";
  }
}
