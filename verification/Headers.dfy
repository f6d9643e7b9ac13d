/**
 A header map and the removal of hop-by-hop fields (`strip_hop_by_hop` in `src/headers.rs`; section 7.6.1 of RFC 9110).
 Names are lower case; each name maps to its field values in order.
 */
module Headers {
  import opened Wrappers
  import opened Strings

  type Fields = map<string, seq<string>>

  const HOP_BY_HOP := [
    "connection", "keep-alive", "proxy-connection", "proxy-authenticate", "proxy-authorization", "te",
    "trailer", "trailers", "transfer-encoding", "upgrade", "host", "content-length"]

  function Values(m: Fields, name: string): seq<string> {
    if name in m then m[name] else []
  }

  class HeaderMap {
    var fields: Fields

    constructor (m: Fields)
      ensures fields == m
    {
      fields := m;
    }

    method Insert(name: string, value: string)
      modifies this
      ensures fields == old(fields)[name := [value]]
    {
      fields := fields[name := [value]];
    }

    method Remove(name: string)
      modifies this
      ensures fields == old(fields) - {name}
    {
      fields := fields - {name};
    }
  }

  // ---- Tokens and nominated names ----

  /** A token character of section 5.6.2 of RFC 9110. */
  predicate IsTokenChar(c: char) {
    'a' <= c <= 'z' || 'A' <= c <= 'Z' || '0' <= c <= '9' || c in "!#$%&'*+-.^_`|~"
  }

  /** Reading a header name: a non-empty token in any letter case. */
  function ParseName(t: string): Option<string> {
    if t != "" && All(t, IsTokenChar) then Some(Lower(t)) else None
  }

  /** The comma-separated items of all field lines, in order. */
  function Items(values: seq<string>): seq<string> {
    if values == [] then [] else Split(values[0], ',') + Items(values[1..])
  }

  /** The connection options of a message, one per item of its Connection fields. */
  function Options(m: Fields): seq<string> {
    Items(Values(m, "connection"))
  }

  function OptionName(option: string): Option<string> {
    ParseName(Trim(option, IsAsciiWs))
  }

  predicate Nominated(m: Fields, name: string) {
    exists k :: 0 <= k < |Options(m)| && OptionName(Options(m)[k]) == Some(name)
  }

  /** What may cross this hop: neither listed nor nominated. */
  predicate EndToEnd(m: Fields, name: string) {
    name !in HOP_BY_HOP && !Nominated(m, name)
  }

  function Stripped(m: Fields): Fields {
    map n | n in m && EndToEnd(m, n) :: m[n]
  }

  // ---- The two removal loops ----

  method RemoveAll(headers: HeaderMap, names: seq<string>)
    modifies headers
    ensures headers.fields == map n | n in old(headers.fields) && n !in names :: old(headers.fields)[n]
  {
    ghost var m := headers.fields;
    for i := 0 to |names|
      invariant headers.fields == map n | n in m && n !in names[..i] :: m[n]
    {
      headers.Remove(names[i]);
      assert names[..i + 1] == names[..i] + [names[i]];
    }
    assert names[..|names|] == names;
  }

  /** Collects nominated names before any field is removed, then removes them and the fixed list. */
  method StripHopByHop(headers: HeaderMap)
    modifies headers
    ensures headers.fields == Stripped(old(headers.fields))
  {
    hide Options, OptionName;
    ghost var m := headers.fields;
    var nominated: seq<string> := [];
    var options := Options(headers.fields);
    for i := 0 to |options|
      invariant headers.fields == m
      invariant forall n :: n in nominated <==>
                  n in m && n !in HOP_BY_HOP && exists k :: 0 <= k < i && OptionName(options[k]) == Some(n)
    {
      var name := OptionName(options[i]);
      if name.Some? && name.value !in HOP_BY_HOP && name.value in headers.fields {
        nominated := nominated + [name.value];
      }
    }
    assert forall n :: n in m && n !in HOP_BY_HOP ==> (n in nominated <==> Nominated(m, n));
    RemoveAll(headers, nominated);
    RemoveAll(headers, HOP_BY_HOP);
  }

  // ---- What stripping means ----

  /** A stripped map has no connection options left, so stripping again changes nothing. */
  lemma StripIdempotent(m: Fields)
    ensures Stripped(Stripped(m)) == Stripped(m)
    ensures Options(Stripped(m)) == []
  {
    assert HOP_BY_HOP[0] == "connection";
    assert "connection" !in Stripped(m);
  }

  /**
   A name, in any letter case, listed in any Connection field line removes the field of that name, whatever else
   the line holds: the other items may be empty or not even tokens.
   */
  lemma NominationIsHeard(m: Fields, line: string, item: string, name: string)
    requires line in Values(m, "connection") && item in Split(line, ',')
    requires OptionName(item) == Some(name)
    ensures Nominated(m, name) && name !in Stripped(m)
  {
    ItemsIn(Values(m, "connection"), line, item);
    var k :| 0 <= k < |Options(m)| && Options(m)[k] == item;
  }

  lemma {:induction false} ItemsIn(values: seq<string>, line: string, item: string)
    requires line in values && item in Split(line, ',')
    ensures item in Items(values)
    decreases |values|
  {
    if line != values[0] {
      ItemsIn(values[1..], line, item);
    }
  }

  /** Stripping keeps the values of every other field, in order, and removes everything else. */
  lemma StripExact(m: Fields, name: string)
    ensures Values(Stripped(m), name) ==
            if name in HOP_BY_HOP
               || exists line, item ::
                    line in Values(m, "connection") && item in Split(line, ',') && OptionName(item) == Some(name)
            then [] else Values(m, name)
  {
    if Nominated(m, name) {
      var k :| 0 <= k < |Options(m)| && OptionName(Options(m)[k]) == Some(name);
      var line := ItemsOrigin(Values(m, "connection"), Options(m)[k]);
    }
    if line, item :| line in Values(m, "connection") && item in Split(line, ',') && OptionName(item) == Some(name) {
      NominationIsHeard(m, line, item, name);
    }
  }

  lemma {:induction false} ItemsOrigin(values: seq<string>, item: string) returns (line: string)
    requires item in Items(values)
    ensures line in values && item in Split(line, ',')
    decreases |values|
  {
    if item in Split(values[0], ',') {
      line := values[0];
    } else {
      line := ItemsOrigin(values[1..], item);
    }
  }
}
