/**
 JSON texts (RFC 8259, sections 2 to 7) as concrete syntax trees, with a printer `Text` and a recogniser
 `ParseValue`. A body is a string whose characters stand for its bytes.

 The trees keep every byte of the text they stand for: whitespace, number spelling and escapes.
 The recogniser is what `serde_json` does when it skips a value or captures it as raw text. It reads the
 text once from the left and never looks at the printer. JsonGrammar.dfy proves the two are inverse.
 */
module Json {
  import opened Strings
  import opened Wrappers

  // ---- Characters and runs of characters ----

  predicate IsWs(c: char) {
    c == ' ' || c == '\t' || c == '\n' || c == '\r'
  }

  predicate IsDigit(c: char) {
    '0' <= c <= '9'
  }

  predicate IsHex(c: char) {
    '0' <= c <= '9' || 'a' <= c <= 'f' || 'A' <= c <= 'F'
  }

  /** Value of a hexadecimal digit, zero for any other character. */
  function HexDigit(c: char): (d: nat)
    ensures d < 16
  {
    if '0' <= c <= '9' then c as int - '0' as int
    else if 'A' <= c <= 'F' then c as int - 'A' as int + 10
    else if 'a' <= c <= 'f' then c as int - 'a' as int + 10
    else 0
  }

  /** The number a run of digits denotes in a base, most significant digit first. */
  function Positional(ds: string, base: nat): nat
    decreases |ds|
  {
    if ds == "" then 0 else Positional(ds[..|ds| - 1], base) * base + HexDigit(ds[|ds| - 1])
  }

  predicate Blank(t: string) {
    All(t, IsWs)
  }

  predicate Digits(t: string) {
    All(t, IsDigit)
  }

  /** The text `t` occurs in `s` at index `i`. */
  predicate At(s: string, i: nat, t: string) {
    i + |t| <= |s| && forall k :: 0 <= k < |t| ==> s[i + k] == t[k]
  }

  function Slice(s: string, i: nat, j: nat): string
    requires i <= j <= |s|
  {
    s[i..j]
  }

  function SkipWs(s: string, i: nat): (j: nat)
    requires i <= |s|
    ensures i <= j <= |s| && Blank(Slice(s, i, j)) && (j < |s| ==> !IsWs(s[j]))
    decreases |s| - i
  {
    if i < |s| && IsWs(s[i]) then SkipWs(s, i + 1) else i
  }

  function SkipDigits(s: string, i: nat): (j: nat)
    requires i <= |s|
    ensures i <= j <= |s| && Digits(Slice(s, i, j)) && (j < |s| ==> !IsDigit(s[j]))
    decreases |s| - i
  {
    if i < |s| && IsDigit(s[i]) then SkipDigits(s, i + 1) else i
  }

  predicate Peek(s: string, i: nat, c: char) {
    i < |s| && s[i] == c
  }

  // ---- Numbers (section 6) ----

  datatype Exponent = Exponent(mark: char, sign: string, digits: string)

  datatype Num = Num(negative: bool, whole: string, frac: Option<string>, exp: Option<Exponent>)

  function FracText(f: Option<string>): string {
    if f.Some? then "." + f.value else ""
  }

  function ExpText(e: Option<Exponent>): string {
    if e.Some? then [e.value.mark] + e.value.sign + e.value.digits else ""
  }

  function MinusText(negative: bool): string {
    if negative then "-" else ""
  }

  function NumText(n: Num): string {
    MinusText(n.negative) + (n.whole + (FracText(n.frac) + ExpText(n.exp)))
  }

  predicate FracOk(f: Option<string>) {
    f.Some? ==> |f.value| > 0 && Digits(f.value)
  }

  predicate ExpOk(e: Option<Exponent>) {
    e.Some? ==>
      && (e.value.mark == 'e' || e.value.mark == 'E')
      && (e.value.sign == "" || e.value.sign == "+" || e.value.sign == "-")
      && |e.value.digits| > 0 && Digits(e.value.digits)
  }

  predicate NumOk(n: Num) {
    && |n.whole| > 0 && Digits(n.whole)
    && (n.whole[0] == '0' ==> |n.whole| == 1)
    && FracOk(n.frac)
    && ExpOk(n.exp)
  }

  function ParseFrac(s: string, i: nat): (r: Parsed<Option<string>>)
    requires i <= |s|
    ensures r.Done? ==> i <= r.end <= |s|
  {
    if Peek(s, i, '.') then
      var j := SkipDigits(s, i + 1);
      if j == i + 1 then Fail else Done(Some(Slice(s, i + 1, j)), j)
    else
      Done(None, i)
  }

  function ParseExp(s: string, i: nat): (r: Parsed<Option<Exponent>>)
    requires i <= |s|
    ensures r.Done? ==> i <= r.end <= |s|
  {
    if Peek(s, i, 'e') || Peek(s, i, 'E') then
      var a := if Peek(s, i + 1, '+') || Peek(s, i + 1, '-') then i + 2 else i + 1;
      var j := SkipDigits(s, a);
      if j == a then Fail else Done(Some(Exponent(s[i], Slice(s, i + 1, a), Slice(s, a, j))), j)
    else
      Done(None, i)
  }

  function ParseNum(s: string, i: nat): (r: Parsed<Num>)
    requires i <= |s|
    ensures r.Done? ==> i < r.end <= |s|
  {
    var negative := Peek(s, i, '-');
    var a := if negative then i + 1 else i;
    var b := SkipDigits(s, a);
    if b == a || (s[a] == '0' && b > a + 1) then
      Fail
    else
      match ParseFrac(s, b)
      case Fail => Fail
      case Done(frac, c) =>
        match ParseExp(s, c)
        case Fail => Fail
        case Done(exp, d) => Done(Num(negative, Slice(s, a, b), frac, exp), d)
  }

  // ---- Strings (section 7) ----

  datatype Chr = Plain(c: char) | Escape(c: char) | Unicode(h3: char, h2: char, h1: char, h0: char)

  datatype Chars = End | Chars(head: Chr, tail: Chars)

  predicate IsPlain(c: char) {
    ' ' <= c && c != '"' && c != '\\'
  }

  predicate IsEscape(c: char) {
    c == '"' || c == '\\' || c == '/' || c == 'b' || c == 'f' || c == 'n' || c == 'r' || c == 't'
  }

  function ChrText(c: Chr): string {
    match c
    case Plain(p) => [p]
    case Escape(e) => ['\\', e]
    case Unicode(a, b, c, d) => ['\\', 'u', a, b, c, d]
  }

  predicate ChrOk(c: Chr) {
    match c
    case Plain(p) => IsPlain(p)
    case Escape(e) => IsEscape(e)
    case Unicode(a, b, c, d) => IsHex(a) && IsHex(b) && IsHex(c) && IsHex(d)
  }

  function CharsText(cs: Chars): string {
    match cs
    case End => ""
    case Chars(head, tail) => ChrText(head) + CharsText(tail)
  }

  predicate CharsOk(cs: Chars) {
    match cs
    case End => true
    case Chars(head, tail) => ChrOk(head) && CharsOk(tail)
  }

  function ParseChr(s: string, i: nat): (r: Parsed<Chr>)
    requires i <= |s|
    ensures r.Done? ==> i < r.end <= |s|
  {
    if i == |s| then Fail
    else if s[i] == '\\' then
      if Peek(s, i + 1, 'u') then
        if i + 6 <= |s| && IsHex(s[i + 2]) && IsHex(s[i + 3]) && IsHex(s[i + 4]) && IsHex(s[i + 5]) then
          Done(Unicode(s[i + 2], s[i + 3], s[i + 4], s[i + 5]), i + 6)
        else
          Fail
      else if i + 1 < |s| && IsEscape(s[i + 1]) then
        Done(Escape(s[i + 1]), i + 2)
      else
        Fail
    else if IsPlain(s[i]) then Done(Plain(s[i]), i + 1)
    else Fail
  }

  /** Reads from just after the opening quote; the end is just after the closing one. */
  function ParseChars(s: string, i: nat): (r: Parsed<Chars>)
    requires i <= |s|
    ensures r.Done? ==> i < r.end <= |s|
    decreases |s| - i
  {
    if Peek(s, i, '"') then
      Done(End, i + 1)
    else
      match ParseChr(s, i)
      case Fail => Fail
      case Done(head, j) =>
        match ParseChars(s, j)
        case Fail => Fail
        case Done(tail, k) => Done(Chars(head, tail), k)
  }

  // ---- Values, arrays and objects (sections 2 to 5) ----

  datatype Value =
    | Null
    | True
    | False
    | Number(num: Num)
    | Str(chars: Chars)
    | EmptyArray(pad: string)
    | Array(items: Items)
    | EmptyObject(pad: string)
    | Object(members: Members)

  /** A non-empty array body; `before` and `after` are the whitespace around each element. */
  datatype Items =
    | LastItem(before: string, value: Value, after: string)
    | MoreItems(before: string, value: Value, after: string, rest: Items)

  /** A member up to its value: whitespace, key, whitespace, colon, whitespace. */
  datatype Key = Key(before: string, name: Chars, beforeColon: string, afterColon: string)

  datatype Members =
    | LastMember(key: Key, value: Value, after: string)
    | MoreMembers(key: Key, value: Value, after: string, rest: Members)

  function KeyText(l: Key): string {
    l.before + ("\"" + (CharsText(l.name) + ("\"" + (l.beforeColon + (":" + l.afterColon)))))
  }

  function Text(v: Value): string {
    match v
    case Null => "null"
    case True => "true"
    case False => "false"
    case Number(num) => NumText(num)
    case Str(chars) => "\"" + (CharsText(chars) + "\"")
    case EmptyArray(pad) => "[" + (pad + "]")
    case Array(items) => "[" + ItemsText(items)
    case EmptyObject(pad) => "{" + (pad + "}")
    case Object(members) => "{" + MembersText(members)
  }

  /** The text from just after the opening bracket or comma to the closing bracket. */
  function ItemsText(items: Items): string {
    match items
    case LastItem(before, value, after) => before + (Text(value) + (after + "]"))
    case MoreItems(before, value, after, rest) => before + (Text(value) + (after + ("," + ItemsText(rest))))
  }

  function MembersText(members: Members): string {
    match members
    case LastMember(key, value, after) => KeyText(key) + (Text(value) + (after + "}"))
    case MoreMembers(key, value, after, rest) =>
      KeyText(key) + (Text(value) + (after + ("," + MembersText(rest))))
  }

  predicate KeyOk(l: Key) {
    Blank(l.before) && CharsOk(l.name) && Blank(l.beforeColon) && Blank(l.afterColon)
  }

  /** The tree is one the grammar of RFC 8259 generates. */
  predicate WellFormed(v: Value) {
    match v
    case Null => true
    case True => true
    case False => true
    case Number(num) => NumOk(num)
    case Str(chars) => CharsOk(chars)
    case EmptyArray(pad) => Blank(pad)
    case Array(items) => ItemsOk(items)
    case EmptyObject(pad) => Blank(pad)
    case Object(members) => MembersOk(members)
  }

  predicate ItemsOk(items: Items) {
    && Blank(items.before) && WellFormed(items.value) && Blank(items.after)
    && (items.MoreItems? ==> ItemsOk(items.rest))
  }

  predicate MembersOk(members: Members) {
    && KeyOk(members.key) && WellFormed(members.value) && Blank(members.after)
    && (members.MoreMembers? ==> MembersOk(members.rest))
  }

  function ParseWord(s: string, i: nat, word: string, v: Value): (r: Parsed<Value>)
    requires |word| > 0
    ensures r.Done? ==> i < r.end <= |s|
  {
    if At(s, i, word) then Done(v, i + |word|) else Fail
  }

  /** Reads one value that starts exactly at `i`. */
  function ParseValue(s: string, i: nat): (r: Parsed<Value>)
    requires i <= |s|
    ensures r.Done? ==> i < r.end <= |s|
    decreases |s| - i, 0
  {
    if i == |s| then Fail
    else if s[i] == 'n' then ParseWord(s, i, "null", Null)
    else if s[i] == 't' then ParseWord(s, i, "true", True)
    else if s[i] == 'f' then ParseWord(s, i, "false", False)
    else if s[i] == '"' then
      match ParseChars(s, i + 1)
      case Fail => Fail
      case Done(chars, j) => Done(Str(chars), j)
    else if s[i] == '[' then
      var j := SkipWs(s, i + 1);
      if Peek(s, j, ']') then Done(EmptyArray(Slice(s, i + 1, j)), j + 1)
      else
        match ParseItems(s, i + 1)
        case Fail => Fail
        case Done(items, k) => Done(Array(items), k)
    else if s[i] == '{' then
      var j := SkipWs(s, i + 1);
      if Peek(s, j, '}') then Done(EmptyObject(Slice(s, i + 1, j)), j + 1)
      else
        match ParseMembers(s, i + 1)
        case Fail => Fail
        case Done(members, k) => Done(Object(members), k)
    else
      match ParseNum(s, i)
      case Fail => Fail
      case Done(num, j) => Done(Number(num), j)
  }

  /** Reads from just after the opening bracket or a comma, up to and including the closing bracket. */
  function ParseItems(s: string, i: nat): (r: Parsed<Items>)
    requires i <= |s|
    ensures r.Done? ==> i < r.end <= |s|
    decreases |s| - i, 1
  {
    var j := SkipWs(s, i);
    match ParseValue(s, j)
    case Fail => Fail
    case Done(v, k) =>
      var l := SkipWs(s, k);
      if Peek(s, l, ']') then Done(LastItem(Slice(s, i, j), v, Slice(s, k, l)), l + 1)
      else if Peek(s, l, ',') then
        match ParseItems(s, l + 1)
        case Fail => Fail
        case Done(rest, m) => Done(MoreItems(Slice(s, i, j), v, Slice(s, k, l), rest), m)
      else Fail
  }

  /** Reads a key, its colon and the whitespace around them; the end is where the value must start. */
  function ParseKey(s: string, i: nat): (r: Parsed<Key>)
    requires i <= |s|
    ensures r.Done? ==> i < r.end <= |s|
  {
    var j := SkipWs(s, i);
    if !Peek(s, j, '"') then Fail
    else
      match ParseChars(s, j + 1)
      case Fail => Fail
      case Done(name, k) =>
        var c := SkipWs(s, k);
        if !Peek(s, c, ':') then Fail
        else
          var d := SkipWs(s, c + 1);
          Done(Key(Slice(s, i, j), name, Slice(s, k, c), Slice(s, c + 1, d)), d)
  }

  function ParseMembers(s: string, i: nat): (r: Parsed<Members>)
    requires i <= |s|
    ensures r.Done? ==> i < r.end <= |s|
    decreases |s| - i, 1
  {
    match ParseKey(s, i)
    case Fail => Fail
    case Done(key, d) =>
      match ParseValue(s, d)
      case Fail => Fail
      case Done(v, k) =>
        var l := SkipWs(s, k);
        if Peek(s, l, '}') then Done(LastMember(key, v, Slice(s, k, l)), l + 1)
        else if Peek(s, l, ',') then
          match ParseMembers(s, l + 1)
          case Fail => Fail
          case Done(rest, m) => Done(MoreMembers(key, v, Slice(s, k, l), rest), m)
        else Fail
  }

  /** A whole text: one value with whitespace around it and nothing after. */
  function ParseDocument(s: string): Option<Value> {
    match ParseValue(s, SkipWs(s, 0))
    case Fail => None
    case Done(v, j) => if SkipWs(s, j) == |s| then Some(v) else None
  }
}
