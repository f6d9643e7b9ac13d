/** The bytes a JSON string stands for (RFC 8259, section 7; UTF-8 as in RFC 3629). */
module JsonString {
  import opened Wrappers
  import opened Json

  function CodeUnit(c: Chr): (u: nat)
    requires c.Unicode?
    ensures u < 0x10000
  {
    ((HexDigit(c.h3) * 16 + HexDigit(c.h2)) * 16 + HexDigit(c.h1)) * 16 + HexDigit(c.h0)
  }

  /** The last `k` bytes of a longer sequence: six bits each. */
  function Trailing(n: nat, k: nat): string {
    if k == 0 then "" else Trailing(n / 0x40, k - 1) + [(0x80 + n % 0x40) as char]
  }

  /** The UTF-8 bytes of a scalar value, one character per byte. */
  function Utf8(n: nat): string
    requires n < 0x110000
  {
    if n < 0x80 then [n as char]
    else if n < 0x800 then [(0xC0 + n / 0x40) as char] + Trailing(n, 1)
    else if n < 0x10000 then [(0xE0 + n / 0x1000) as char] + Trailing(n, 2)
    else [(0xF0 + n / 0x40000) as char] + Trailing(n, 3)
  }

  function Unescape(c: char): char {
    match c
    case 'b' => 8 as char
    case 'f' => 12 as char
    case 'n' => '\n'
    case 'r' => '\r'
    case 't' => '\t'
    case _ => c
  }

  predicate IsHighSurrogate(u: nat) {
    0xD800 <= u < 0xDC00
  }

  predicate IsLowSurrogate(u: nat) {
    0xDC00 <= u < 0xE000
  }

  /** Decodes every escape. A surrogate that is not half of a pair has no meaning and is an error. */
  function Decode(cs: Chars): Option<string> {
    match cs
    case End => Some("")
    case Chars(Plain(c), tail) => Prepend([c], Decode(tail))
    case Chars(Escape(c), tail) => Prepend([Unescape(c)], Decode(tail))
    case Chars(Unicode(_, _, _, _), tail) =>
      var u := CodeUnit(cs.head);
      if IsLowSurrogate(u) then None
      else if !IsHighSurrogate(u) then Prepend(Utf8(u), Decode(tail))
      else if tail.Chars? && tail.head.Unicode? && IsLowSurrogate(CodeUnit(tail.head)) then
        var low := CodeUnit(tail.head);
        Prepend(Utf8(0x10000 + (u - 0xD800) * 0x400 + (low - 0xDC00)), Decode(tail.tail))
      else None
  }

  function Prepend(t: string, rest: Option<string>): Option<string> {
    if rest.Some? then Some(t + rest.value) else None
  }

  /** How many bytes a sequence with this first byte has; 0 for a byte that starts none. */
  function Expected(first: int): (n: nat)
    ensures n <= 4
  {
    if first < 0x80 then 1
    else if 0xC2 <= first <= 0xDF then 2
    else if 0xE0 <= first <= 0xEF then 3
    else if 0xF0 <= first <= 0xF4 then 4
    else 0
  }

  /** The second byte excludes overlong forms, surrogates and values past the last scalar. */
  predicate SecondOk(first: int, second: int) {
    && (if first == 0xE0 then 0xA0 else if first == 0xF0 then 0x90 else 0x80) <= second
    && second <= if first == 0xED then 0x9F else if first == 0xF4 then 0x8F else 0xBF
  }

  /** A well-formed UTF-8 sequence of `n` bytes stands at index `i`. */
  predicate SequenceAt(s: string, i: nat, n: nat)
    requires i < |s|
  {
    && 0 < n <= 4 && i + n <= |s|
    && (n > 1 ==> SecondOk(s[i] as int, s[i + 1] as int))
    && (n > 2 ==> 0x80 <= s[i + 2] as int <= 0xBF)
    && (n > 3 ==> 0x80 <= s[i + 3] as int <= 0xBF)
  }

  predicate ValidFrom(s: string, i: nat)
    requires i <= |s|
    decreases |s| - i
  {
    i == |s| || (var n := Expected(s[i] as int); SequenceAt(s, i, n) && ValidFrom(s, i + n))
  }

  predicate ValidUtf8(s: string) {
    ValidFrom(s, 0)
  }

  lemma {:induction false} AsciiFrom(s: string, i: nat)
    requires i <= |s| && forall k :: 0 <= k < |s| ==> s[k] as int < 0x80
    ensures ValidFrom(s, i)
    decreases |s| - i
  {
    if i < |s| {
      AsciiFrom(s, i + 1);
    }
  }

  lemma AsciiIsUtf8(s: string)
    requires forall k :: 0 <= k < |s| ==> s[k] as int < 0x80
    ensures ValidUtf8(s)
  {
    AsciiFrom(s, 0);
  }

  /** What a reader that needs a `str` gets from a string: escapes decoded and UTF-8 checked. */
  function StrValue(cs: Chars): Option<string> {
    match Decode(cs)
    case None => None
    case Some(t) => if ValidUtf8(t) then Some(t) else None
  }

  /** A string written without a backslash stands for its own text. */
  lemma {:induction false} DecodePlain(cs: Chars)
    requires CharsOk(cs) && '\\' !in CharsText(cs)
    ensures Decode(cs) == Some(CharsText(cs))
    decreases cs
  {
    if cs.Chars? {
      assert CharsText(cs)[0] == ChrText(cs.head)[0];
      assert forall c :: c in CharsText(cs.tail) ==> c in CharsText(cs);
      DecodePlain(cs.tail);
    }
  }
}
