/**
 What JSON strings mean, said from the printing side (RFC 8259, section 7; RFC 3629): every way to spell a text reads
 back as that text, and every readable string is such a spelling.
 */
module JsonEscapes {
  import opened Wrappers
  import opened Json
  import opened JsonObject
  import opened JsonString

  // ---- Scalar values as bytes ----

  /** A Unicode scalar value: any code point but a surrogate. */
  predicate IsScalar(n: nat) {
    n < 0x110000 && !(0xD800 <= n < 0xE000)
  }

  predicate IsTrail(c: char) {
    0x80 <= c as int < 0xC0
  }

  /** The bytes `b` are the shortest UTF-8 form of `n`: marker bits removed, their bits are the number. */
  predicate IsUtf8(b: string, n: nat) {
    || (|b| == 1 && n < 0x80 && n == b[0] as int)
    || (&& |b| == 2 && 0x80 <= n < 0x800 && 0xC0 <= b[0] as int < 0xE0 && IsTrail(b[1])
        && n == (b[0] as int - 0xC0) * 0x40 + (b[1] as int - 0x80))
    || (&& |b| == 3 && 0x800 <= n < 0x10000 && 0xE0 <= b[0] as int < 0xF0 && IsTrail(b[1]) && IsTrail(b[2])
        && n == (b[0] as int - 0xE0) * 0x1000 + (b[1] as int - 0x80) * 0x40 + (b[2] as int - 0x80))
    || (&& |b| == 4 && 0x10000 <= n < 0x110000 && 0xF0 <= b[0] as int < 0xF8
        && IsTrail(b[1]) && IsTrail(b[2]) && IsTrail(b[3])
        && n == (b[0] as int - 0xF0) * 0x40000 + (b[1] as int - 0x80) * 0x1000
                + (b[2] as int - 0x80) * 0x40 + (b[3] as int - 0x80))
  }

  lemma TrailingBytes(n: nat)
    ensures Trailing(n, 1) == [(0x80 + n % 0x40) as char]
    ensures Trailing(n, 2) == [(0x80 + n / 0x40 % 0x40) as char, (0x80 + n % 0x40) as char]
    ensures Trailing(n, 3) ==
            [(0x80 + n / 0x40 / 0x40 % 0x40) as char, (0x80 + n / 0x40 % 0x40) as char, (0x80 + n % 0x40) as char]
  {
    assert Trailing(n / 0x40 / 0x40 / 0x40, 0) == "";
    assert Trailing(n / 0x40 / 0x40, 1) == [(0x80 + n / 0x40 / 0x40 % 0x40) as char];
    assert Trailing(n / 0x40, 1) == [(0x80 + n / 0x40 % 0x40) as char];
    assert Trailing(n / 0x40, 2) == Trailing(n / 0x40 / 0x40, 1) + [(0x80 + n / 0x40 % 0x40) as char];
  }

  /** The number can be read off its bytes. */
  lemma Utf8Recovers(n: nat)
    requires n < 0x110000
    ensures IsUtf8(Utf8(n), n)
  {
    hide Trailing;
    TrailingBytes(n);
    var q, r := n / 0x40, n / 0x40 / 0x40;
    assert n == q * 0x40 + n % 0x40 && q == r * 0x40 + q % 0x40;
    assert n / 0x1000 == r && n / 0x40000 == r / 0x40 && r == r / 0x40 * 0x40 + r % 0x40;
  }

  /** A number in base 0x40 has one last digit and one rest. */
  lemma LastSix(a: int, b: int, c: int, d: int)
    requires a * 0x40 + b == c * 0x40 + d && 0 <= b < 0x40 && 0 <= d < 0x40
    ensures a == c && b == d
  {
  }

  /** The bytes of a number are determined by it. */
  lemma Utf8Unique(b: string, c: string, n: nat)
    requires IsUtf8(b, n) && IsUtf8(c, n)
    ensures b == c
  {
    assert |b| == |c|;
    if |b| == 2 {
      LastSix(b[0] as int - 0xC0, b[1] as int - 0x80, c[0] as int - 0xC0, c[1] as int - 0x80);
    } else if |b| == 3 {
      var p := (b[0] as int - 0xE0) * 0x40 + (b[1] as int - 0x80);
      var q := (c[0] as int - 0xE0) * 0x40 + (c[1] as int - 0x80);
      LastSix(p, b[2] as int - 0x80, q, c[2] as int - 0x80);
      LastSix(b[0] as int - 0xE0, b[1] as int - 0x80, c[0] as int - 0xE0, c[1] as int - 0x80);
    } else if |b| == 4 {
      var p := (b[0] as int - 0xF0) * 0x40 + (b[1] as int - 0x80);
      var q := (c[0] as int - 0xF0) * 0x40 + (c[1] as int - 0x80);
      LastSix(p * 0x40 + (b[2] as int - 0x80), b[3] as int - 0x80, q * 0x40 + (c[2] as int - 0x80), c[3] as int - 0x80);
      LastSix(p, b[2] as int - 0x80, q, c[2] as int - 0x80);
      LastSix(b[0] as int - 0xF0, b[1] as int - 0x80, c[0] as int - 0xF0, c[1] as int - 0x80);
    }
  }

  lemma Utf8Sequence(b: string, n: nat)
    requires IsScalar(n) && IsUtf8(b, n)
    ensures Expected(b[0] as int) == |b| && SequenceAt(b, 0, |b|)
  {
  }

  lemma {:induction false} ValidShift(a: string, b: string, i: nat)
    requires i <= |b|
    ensures ValidFrom(a + b, |a| + i) <==> ValidFrom(b, i)
    decreases |b| - i
  {
    if i < |b| {
      var n := Expected(b[i] as int);
      assert (a + b)[|a| + i] == b[i];
      SequenceShift(a, b, i, n);
      if SequenceAt(b, i, n) {
        ValidShift(a, b, i + n);
      }
    }
  }

  lemma SequenceShift(a: string, b: string, i: nat, n: nat)
    requires i < |b|
    ensures SequenceAt(a + b, |a| + i, n) <==> SequenceAt(b, i, n)
  {
    hide SecondOk;
    assert forall k :: 0 <= k < |b| ==> (a + b)[|a| + k] == b[k];
  }

  function Encode(ns: seq<nat>): string
    requires forall k :: 0 <= k < |ns| ==> IsScalar(ns[k])
  {
    if ns == [] then ""
    else
      assert IsScalar(ns[0]);
      Utf8(ns[0]) + Encode(ns[1..])
  }

  lemma ValidCons(n: nat, rest: string)
    requires IsScalar(n)
    ensures ValidUtf8(Utf8(n) + rest) <==> ValidUtf8(rest)
  {
    hide Utf8, ValidFrom, Expected, SequenceAt;
    var b := Utf8(n);
    Utf8Recovers(n);
    Utf8Sequence(b, n);
    ValidShift(b, rest, 0);
    SequencePrefix(b, rest, |b|);
    ValidUnfold(b + rest);
  }

  lemma SequencePrefix(b: string, rest: string, n: nat)
    requires b != "" && SequenceAt(b, 0, n)
    ensures (b + rest)[0] == b[0] && SequenceAt(b + rest, 0, n)
  {
    hide SecondOk;
    assert forall k :: 0 <= k < |b| ==> (b + rest)[k] == b[k];
  }

  lemma ValidUnfold(s: string)
    requires s != ""
    ensures var n := Expected(s[0] as int);
            ValidFrom(s, 0) <==> SequenceAt(s, 0, n) && ValidFrom(s, n)
  {
    hide Expected, SequenceAt;
  }

  /** Sequences of scalar values are valid UTF-8. */
  lemma {:induction false} EncodedIsValid(ns: seq<nat>)
    requires forall k :: 0 <= k < |ns| ==> IsScalar(ns[k])
    ensures ValidUtf8(Encode(ns))
    decreases |ns|
  {
    hide Utf8;
    if ns != [] {
      EncodedIsValid(ns[1..]);
      ValidCons(ns[0], Encode(ns[1..]));
    }
  }

  /** The scalar value at the front of a valid text. */
  lemma ScalarAt(s: string) returns (n: nat, k: nat)
    requires s != "" && ValidUtf8(s)
    ensures IsScalar(n) && 0 < k <= |s| && IsUtf8(s[..k], n)
  {
    k := Expected(s[0] as int);
    var b := s[..k];
    n := if k == 1 then b[0] as int
         else if k == 2 then (b[0] as int - 0xC0) * 0x40 + (b[1] as int - 0x80)
         else if k == 3 then (b[0] as int - 0xE0) * 0x1000 + (b[1] as int - 0x80) * 0x40 + (b[2] as int - 0x80)
         else (b[0] as int - 0xF0) * 0x40000 + (b[1] as int - 0x80) * 0x1000 + (b[2] as int - 0x80) * 0x40
              + (b[3] as int - 0x80);
  }

  /** And nothing else is: valid UTF-8 is exactly what sequences of scalar values encode to. */
  lemma {:induction false} ValidIsEncoded(s: string) returns (ns: seq<nat>)
    requires ValidUtf8(s)
    ensures (forall k :: 0 <= k < |ns| ==> IsScalar(ns[k])) && Encode(ns) == s
    decreases |s|
  {
    hide Utf8, ValidUtf8, IsUtf8;
    if s == "" {
      ns := [];
    } else {
      var n, k := ScalarAt(s);
      Utf8Recovers(n);
      Utf8Unique(s[..k], Utf8(n), n);
      assert s == Utf8(n) + s[k..];
      ValidCons(n, s[k..]);
      var rest := ValidIsEncoded(s[k..]);
      ns := [n] + rest;
      assert ns[1..] == rest;
    }
  }

  // ---- Spellings ----

  /** One way to write a part of a string: a byte as it is, a two-character escape, or the number of a scalar in hex. */
  datatype Piece = Raw(c: char) | Short(mark: char) | Code(n: nat, upper: seq<bool>)

  predicate PieceOk(p: Piece) {
    match p
    case Raw(c) => c as int >= 0x20 && c != '"' && c != '\\'
    case Short(mark) => mark in "\"\\/bfnrt"
    case Code(n, _) => IsScalar(n)
  }

  /** A hexadecimal digit in either letter case. */
  function Digit(d: nat, upper: seq<bool>, k: nat): char
    requires d < 16
  {
    if k < |upper| && upper[k] then "0123456789ABCDEF"[d] else "0123456789abcdef"[d]
  }

  /** The four digits of a code unit, most significant first. */
  function Four(u: nat, upper: seq<bool>, k: nat): string
    requires u < 0x10000
  {
    [Digit(u / 0x1000, upper, k), Digit(u / 0x100 % 0x10, upper, k + 1), Digit(u / 0x10 % 0x10, upper, k + 2),
     Digit(u % 0x10, upper, k + 3)]
  }

  function High(n: nat): (u: nat)
    requires 0x10000 <= n < 0x110000
    ensures 0xD800 <= u < 0xDC00
  {
    0xD800 + (n - 0x10000) / 0x400
  }

  function Low(n: nat): (u: nat)
    requires 0x10000 <= n < 0x110000
    ensures 0xDC00 <= u < 0xE000
  {
    0xDC00 + (n - 0x10000) % 0x400
  }

  function PieceText(p: Piece): string
    requires PieceOk(p)
  {
    match p
    case Raw(c) => [c]
    case Short(mark) => ['\\', mark]
    case Code(n, upper) =>
      if n < 0x10000 then "\\u" + Four(n, upper, 0)
      else "\\u" + Four(High(n), upper, 0) + "\\u" + Four(Low(n), upper, 4)
  }

  /** What a piece stands for. */
  function PieceBytes(p: Piece): string
    requires PieceOk(p)
  {
    match p
    case Raw(c) => [c]
    case Short(mark) =>
      if mark == 'b' then [8 as char]
      else if mark == 't' then [9 as char]
      else if mark == 'n' then [10 as char]
      else if mark == 'f' then [12 as char]
      else if mark == 'r' then [13 as char]
      else [mark]
    case Code(n, _) => Utf8(n)
  }

  predicate PiecesOk(ps: seq<Piece>) {
    forall k :: 0 <= k < |ps| ==> PieceOk(ps[k])
  }

  function Spelling(ps: seq<Piece>): string
    requires PiecesOk(ps)
  {
    if ps == [] then "" else PieceText(ps[0]) + Spelling(ps[1..])
  }

  function Meaning(ps: seq<Piece>): string
    requires PiecesOk(ps)
  {
    if ps == [] then "" else PieceBytes(ps[0]) + Meaning(ps[1..])
  }

  // ---- Spellings as trees ----

  function UnitTree(u: nat, upper: seq<bool>, k: nat): Chr
    requires u < 0x10000
  {
    var f := Four(u, upper, k);
    Unicode(f[0], f[1], f[2], f[3])
  }

  function PrintCons(p: Piece, rest: Chars): Chars
    requires PieceOk(p)
  {
    match p
    case Raw(c) => Chars(Plain(c), rest)
    case Short(mark) => Chars(Escape(mark), rest)
    case Code(n, upper) =>
      if n < 0x10000 then Chars(UnitTree(n, upper, 0), rest)
      else Chars(UnitTree(High(n), upper, 0), Chars(UnitTree(Low(n), upper, 4), rest))
  }

  function Print(ps: seq<Piece>): Chars
    requires PiecesOk(ps)
  {
    if ps == [] then End else PrintCons(ps[0], Print(ps[1..]))
  }

  lemma DigitReadsBack(d: nat, upper: seq<bool>, k: nat)
    requires d < 16
    ensures IsHex(Digit(d, upper, k)) && HexDigit(Digit(d, upper, k)) == d
  {
  }

  lemma UnitReadsBack(u: nat, upper: seq<bool>, k: nat)
    requires u < 0x10000
    ensures ChrOk(UnitTree(u, upper, k)) && CodeUnit(UnitTree(u, upper, k)) == u
    ensures ChrText(UnitTree(u, upper, k)) == "\\u" + Four(u, upper, k)
  {
    hide Digit, HexDigit, IsHex;
    DigitReadsBack(u / 0x1000, upper, k);
    DigitReadsBack(u / 0x100 % 0x10, upper, k + 1);
    DigitReadsBack(u / 0x10 % 0x10, upper, k + 2);
    DigitReadsBack(u % 0x10, upper, k + 3);
    var a, b, c := u / 0x10, u / 0x100, u / 0x1000;
    assert u == a * 0x10 + u % 0x10 && a == b * 0x10 + a % 0x10 && b == c * 0x10 + b % 0x10;
  }

  lemma PairReadsBack(n: nat)
    requires 0x10000 <= n < 0x110000
    ensures 0x10000 + (High(n) - 0xD800) * 0x400 + (Low(n) - 0xDC00) == n
  {
  }

  lemma ConsReadsBack(p: Piece, rest: Chars)
    requires PieceOk(p)
    ensures CharsOk(PrintCons(p, rest)) <==> CharsOk(rest)
    ensures CharsText(PrintCons(p, rest)) == PieceText(p) + CharsText(rest)
    ensures Decode(PrintCons(p, rest)) == Prepend(PieceBytes(p), Decode(rest))
  {
    hide UnitTree, Four, High, Low, Utf8, CodeUnit, ChrText, IsEscape, IsPlain;
    match p
    case Raw(c) => LeafReadsBack(p);
    case Short(mark) => LeafReadsBack(p);
    case Code(n, upper) =>
      if n < 0x10000 {
        UnitReadsBack(n, upper, 0);
        UnicodeUnit(n, upper, 0);
      } else {
        UnitReadsBack(High(n), upper, 0);
        UnitReadsBack(Low(n), upper, 4);
        UnicodeUnit(High(n), upper, 0);
        UnicodeUnit(Low(n), upper, 4);
        PairReadsBack(n);
        var a, b := "\\u" + Four(High(n), upper, 0), "\\u" + Four(Low(n), upper, 4);
        assert a + (b + CharsText(rest)) == (a + b) + CharsText(rest);
        assert PieceText(p) == a + b;
      }
  }

  lemma UnicodeUnit(u: nat, upper: seq<bool>, k: nat)
    requires u < 0x10000
    ensures UnitTree(u, upper, k).Unicode?
  {
  }

  lemma LeafReadsBack(p: Piece)
    requires PieceOk(p) && !p.Code?
    ensures p.Raw? ==> ChrOk(Plain(p.c)) && ChrText(Plain(p.c)) == [p.c]
    ensures p.Short? ==>
              && ChrOk(Escape(p.mark)) && ChrText(Escape(p.mark)) == ['\\', p.mark]
              && [Unescape(p.mark)] == PieceBytes(p)
  {
  }

  /** Every spelling is a legal string, and it reads back as what its pieces stand for. */
  lemma {:induction false} SpellingReadsBack(ps: seq<Piece>)
    requires PiecesOk(ps)
    ensures CharsOk(Print(ps)) && CharsText(Print(ps)) == Spelling(ps) && Decode(Print(ps)) == Some(Meaning(ps))
    decreases |ps|
  {
    hide PrintCons, CharsOk, CharsText, Decode, PieceText, PieceBytes, PieceOk;
    if ps == [] {
      NothingSpelled();
    } else {
      SpellingReadsBack(ps[1..]);
      ConsReadsBack(ps[0], Print(ps[1..]));
    }
  }

  lemma NothingSpelled()
    ensures CharsOk(End) && CharsText(End) == "" && Decode(End) == Some("")
  {
  }

  /** A spelling in quotes is a JSON text, and a reader that needs UTF-8 gets its meaning or nothing. */
  lemma SpelledDocument(ps: seq<Piece>)
    requires PiecesOk(ps)
    ensures ParseDocument("\"" + (Spelling(ps) + "\"")) == Some(Str(Print(ps)))
    ensures StrValue(Print(ps)) == if ValidUtf8(Meaning(ps)) then Some(Meaning(ps)) else None
  {
    hide ParseDocument, Spelling, Print, ValidUtf8, Decode, Meaning, PiecesOk;
    SpellingReadsBack(ps);
    StringShape(Print(ps));
    TightDocument(Str(Print(ps)));
  }

  lemma StringShape(cs: Chars)
    ensures Text(Str(cs)) == "\"" + (CharsText(cs) + "\"") && (WellFormed(Str(cs)) <==> CharsOk(cs))
  {
  }

  // ---- Nothing else is readable ----

  predicate IsUpper(c: char) {
    'A' <= c <= 'F'
  }

  function Cases(c: Chr): seq<bool>
    requires c.Unicode?
  {
    [IsUpper(c.h3), IsUpper(c.h2), IsUpper(c.h1), IsUpper(c.h0)]
  }

  lemma DigitOf(c: char, upper: seq<bool>, k: nat)
    requires IsHex(c) && k < |upper| && upper[k] == IsUpper(c)
    ensures Digit(HexDigit(c), upper, k) == c
  {
  }

  lemma UnitDigits(c: Chr)
    requires c.Unicode?
    ensures CodeUnit(c) / 0x1000 == HexDigit(c.h3) && CodeUnit(c) / 0x100 % 0x10 == HexDigit(c.h2)
    ensures CodeUnit(c) / 0x10 % 0x10 == HexDigit(c.h1) && CodeUnit(c) % 0x10 == HexDigit(c.h0)
  {
    hide HexDigit;
    var a := HexDigit(c.h3) * 16 + HexDigit(c.h2);
    var b := a * 16 + HexDigit(c.h1);
    assert CodeUnit(c) / 0x10 == b && CodeUnit(c) / 0x100 == a;
  }

  lemma UnitOf(c: Chr, upper: seq<bool>, k: nat)
    requires c.Unicode? && ChrOk(c) && k + 4 <= |upper| && upper[k..k + 4] == Cases(c)
    ensures UnitTree(CodeUnit(c), upper, k) == c
  {
    hide HexDigit, Digit, IsHex, CodeUnit;
    assert upper[k..k + 4][0] == upper[k] && upper[k..k + 4][1] == upper[k + 1];
    assert upper[k..k + 4][2] == upper[k + 2] && upper[k..k + 4][3] == upper[k + 3];
    UnitDigits(c);
    DigitOf(c.h3, upper, k);
    DigitOf(c.h2, upper, k + 1);
    DigitOf(c.h1, upper, k + 2);
    DigitOf(c.h0, upper, k + 3);
  }

  lemma PairOf(high: nat, low: nat)
    requires 0xD800 <= high < 0xDC00 && 0xDC00 <= low < 0xE000
    ensures var n := 0x10000 + (high - 0xD800) * 0x400 + (low - 0xDC00);
            n < 0x110000 && High(n) == high && Low(n) == low
  {
  }

  /** The piece a decodable string starts with, and the rest. */
  lemma FirstPiece(cs: Chars) returns (p: Piece, rest: Chars)
    requires cs.Chars? && CharsOk(cs) && Decode(cs).Some?
    ensures PieceOk(p) && cs == PrintCons(p, rest) && CharsOk(rest) && Decode(rest).Some?
    ensures rest < cs
  {
    hide UnitTree, Utf8, CodeUnit, High, Low, Cases;
    match cs.head
    case Plain(c) => p, rest := Raw(c), cs.tail;
    case Escape(c) => p, rest := Short(c), cs.tail;
    case Unicode(_, _, _, _) =>
      var u := CodeUnit(cs.head);
      if IsHighSurrogate(u) {
        var low := CodeUnit(cs.tail.head);
        var upper := Cases(cs.head) + Cases(cs.tail.head);
        CasesSplit(cs.head, cs.tail.head);
        UnitOf(cs.head, upper, 0);
        UnitOf(cs.tail.head, upper, 4);
        PairOf(u, low);
        p, rest := Code(0x10000 + (u - 0xD800) * 0x400 + (low - 0xDC00), upper), cs.tail.tail;
      } else {
        CasesSplit(cs.head, cs.head);
        UnitOf(cs.head, Cases(cs.head), 0);
        p, rest := Code(u, Cases(cs.head)), cs.tail;
      }
  }

  lemma CasesSplit(a: Chr, b: Chr)
    requires a.Unicode? && b.Unicode?
    ensures |Cases(a)| == 4 && Cases(a)[0..4] == Cases(a)
    ensures var both := Cases(a) + Cases(b); |both| == 8 && both[0..4] == Cases(a) && both[4..8] == Cases(b)
  {
  }

  /** Every decodable string is the spelling of some pieces. */
  lemma {:induction false} DecodableIsSpelled(cs: Chars) returns (ps: seq<Piece>)
    requires CharsOk(cs) && Decode(cs).Some?
    ensures PiecesOk(ps) && Print(ps) == cs
    decreases cs
  {
    hide PrintCons, CharsOk, Decode, PieceOk;
    if cs == End {
      ps := [];
    } else {
      var p, rest := FirstPiece(cs);
      var more := DecodableIsSpelled(rest);
      ps := [p] + more;
      assert ps[1..] == more;
    }
  }

  /** `cs` is a way to spell `t`. */
  ghost predicate Spells(cs: Chars, t: string) {
    exists ps: seq<Piece> :: PiecesOk(ps) && Print(ps) == cs && Meaning(ps) == t
  }

  /** What a string means to a reader, without decoding it: what it spells, if that is UTF-8. */
  lemma StrValueIff(cs: Chars, t: string)
    requires CharsOk(cs)
    ensures StrValue(cs) == Some(t) <==> Spells(cs, t) && ValidUtf8(t)
  {
    hide CharsOk, Decode, ValidUtf8, Print, Meaning, PiecesOk;
    if StrValue(cs) == Some(t) {
      var ps := DecodableIsSpelled(cs);
      SpellingReadsBack(ps);
    }
    if Spells(cs, t) && ValidUtf8(t) {
      var ps: seq<Piece> :| PiecesOk(ps) && Print(ps) == cs && Meaning(ps) == t;
      SpellingReadsBack(ps);
    }
  }
}
