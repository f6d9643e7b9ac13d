/**
 The reader of `src/rpc.rs`: one pass over the bytes that stops at the first thing it cannot answer.
 Object members are read as serde's derived visitor reads them; `VisitSeq` is the batch loop.
 */
module RpcStream {
  import opened Wrappers
  import opened Json
  import opened JsonString
  import opened Strings

  /** The fields of a request seen so far. */
  datatype Fields = Fields(sawVersion: bool, sawMethod: bool, sawParams: bool, id: Option<string>)

  function TrimAscii(t: string): string {
    Trim(t, IsAsciiWs)
  }

  /** The textual test of `empty_params`: square brackets around nothing but whitespace. */
  predicate EmptyParams(raw: string) {
    var t := TrimAscii(raw);
    && t != "" && t[0] == '['
    && t[1..] != "" && t[|t| - 1] == ']'
    && TrimAscii(t[1..|t| - 1]) == ""
  }

  /** The textual test of `present_id`: the first byte of a string or number, or the word null. */
  predicate PresentId(raw: string) {
    (raw != "" && (raw[0] == '"' || raw[0] == '-' || IsDigit(raw[0]))) || raw == "null"
  }

  /** Reads a string, with whitespace before it, and decodes it. */
  function ReadStr(s: string, i: nat): (r: Parsed<string>)
    requires i <= |s|
    ensures r.Done? ==> i < r.end <= |s|
  {
    var j := SkipWs(s, i);
    if !Peek(s, j, '"') then Fail
    else
      match ParseChars(s, j + 1)
      case Fail => Fail
      case Done(chars, k) => match StrValue(chars) case None => Fail case Some(t) => Done(t, k)
  }

  /** Captures the text of a value, with whitespace before it, as UTF-8. */
  function ReadRaw(s: string, i: nat): (r: Parsed<string>)
    requires i <= |s|
    ensures r.Done? ==> i < r.end <= |s|
  {
    var j := SkipWs(s, i);
    match ParseValue(s, j)
    case Fail => Fail
    case Done(_, k) => if ValidUtf8(Slice(s, j, k)) then Done(Slice(s, j, k), k) else Fail
  }

  /** Reads the value of the member called `name`. A second copy of a known field is an error. */
  function ReadField(s: string, i: nat, name: string, f: Fields): (r: Parsed<Fields>)
    requires i <= |s|
    ensures r.Done? ==> i < r.end <= |s|
  {
    if name == "jsonrpc" then
      match ReadStr(s, i)
      case Done(t, k) => if !f.sawVersion && t == "2.0" then Done(f.(sawVersion := true), k) else Fail
      case Fail => Fail
    else if name == "method" then
      match ReadStr(s, i)
      case Done(t, k) => if !f.sawMethod && t == "eth_syncing" then Done(f.(sawMethod := true), k) else Fail
      case Fail => Fail
    else if name == "params" then
      match ReadRaw(s, i)
      case Done(raw, k) => if !f.sawParams && EmptyParams(raw) then Done(f.(sawParams := true), k) else Fail
      case Fail => Fail
    else if name == "id" then
      match ReadRaw(s, i)
      case Done(raw, k) => if f.id.None? && PresentId(raw) then Done(f.(id := Some(raw)), k) else Fail
      case Fail => Fail
    else
      match ParseValue(s, SkipWs(s, i))
      case Done(_, k) => Done(f, k)
      case Fail => Fail
  }

  /** Reads members from just after the opening brace or a comma. */
  function ReadMembers(s: string, i: nat, f: Fields): (r: Parsed<Fields>)
    requires i <= |s|
    ensures r.Done? ==> i < r.end <= |s|
    decreases |s| - i
  {
    match ReadStr(s, i)
    case Fail => Fail
    case Done(name, k) =>
      var c := SkipWs(s, k);
      if !Peek(s, c, ':') then Fail
      else
        match ReadField(s, c + 1, name, f)
        case Fail => Fail
        case Done(f', e) =>
          var n := SkipWs(s, e);
          if Peek(s, n, '}') then Done(f', n + 1)
          else if Peek(s, n, ',') then ReadMembers(s, n + 1, f')
          else Fail
  }

  /** Reads one request object and yields its id. A missing version or method is an error. */
  function ReadRequest(s: string, i: nat): (r: Parsed<Option<string>>)
    requires i <= |s|
    ensures r.Done? ==> i < r.end <= |s|
  {
    var j := SkipWs(s, i);
    if !Peek(s, j, '{') || Peek(s, SkipWs(s, j + 1), '}') then Fail
    else
      match ReadMembers(s, j + 1, Fields(false, false, false, None))
      case Fail => Fail
      case Done(f, k) => if f.sawVersion && f.sawMethod then Done(f.id, k) else Fail
  }
}
