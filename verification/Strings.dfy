/** Splitting, joining and trimming text, as `str::split`, `trim_matches` and `trim_ascii` do. */
module Strings {
  predicate IsAsciiWs(c: char) {
    c == ' ' || c == '\t' || c == '\n' || c == '\r' || c == 12 as char
  }

  /** Optional whitespace of RFC 9110, section 5.6.3. */
  predicate IsOws(c: char) {
    c == ' ' || c == '\t'
  }

  function TrimStart(t: string, drop: char -> bool): string {
    if t != "" && drop(t[0]) then TrimStart(t[1..], drop) else t
  }

  function TrimEnd(t: string, drop: char -> bool): string {
    if t != "" && drop(t[|t| - 1]) then TrimEnd(t[..|t| - 1], drop) else t
  }

  function Trim(t: string, drop: char -> bool): string {
    TrimEnd(TrimStart(t, drop), drop)
  }

  /** All pieces between occurrences of `c`, empty ones included; never an empty list. */
  function Split(s: string, c: char): (r: seq<string>)
    ensures r != []
  {
    if s == "" then [""]
    else
      var r := Split(s[1..], c);
      if s[0] == c then [""] + r else [[s[0]] + r[0]] + r[1..]
  }

  function Join(ts: seq<string>, sep: string): string {
    if ts == [] then "" else if |ts| == 1 then ts[0] else ts[0] + sep + Join(ts[1..], sep)
  }

  // ---- Letter case ----

  function LowerChar(c: char): char {
    if 'A' <= c <= 'Z' then (c as int + 32) as char else c
  }

  /** The text with its ASCII letters in lower case. */
  function Lower(t: string): (r: string)
    ensures |r| == |t| && forall k :: 0 <= k < |t| ==> r[k] == LowerChar(t[k])
  {
    seq(|t|, k requires 0 <= k < |t| => LowerChar(t[k]))
  }

  // ---- Trimming ----

  predicate All(t: string, p: char -> bool) {
    forall k :: 0 <= k < |t| ==> p(t[k])
  }

  /** Neither end of the text would be trimmed. */
  predicate Tight(t: string, drop: char -> bool) {
    t != "" ==> !drop(t[0]) && !drop(t[|t| - 1])
  }

  lemma {:induction false} TrimStartCuts(t: string, drop: char -> bool) returns (k: nat)
    ensures k <= |t| && TrimStart(t, drop) == t[k..] && All(t[..k], drop)
    ensures k < |t| ==> !drop(t[k])
    decreases |t|
  {
    if t != "" && drop(t[0]) {
      var j := TrimStartCuts(t[1..], drop);
      k := j + 1;
      assert t[1..][j..] == t[k..];
      assert forall i :: 1 <= i < k ==> t[..k][i] == t[1..][..j][i - 1];
    } else {
      k := 0;
    }
  }

  lemma {:induction false} TrimEndCuts(t: string, drop: char -> bool) returns (k: nat)
    ensures k <= |t| && TrimEnd(t, drop) == t[..k] && All(t[k..], drop)
    ensures k > 0 ==> !drop(t[k - 1])
    decreases |t|
  {
    if t != "" && drop(t[|t| - 1]) {
      k := TrimEndCuts(t[..|t| - 1], drop);
      assert t[..|t| - 1][..k] == t[..k];
      assert forall i :: 0 <= i < |t| - 1 - k ==> t[k..][i] == t[..|t| - 1][k..][i];
    } else {
      k := |t|;
    }
  }

  /** A trimmed text is the original without droppable ends. */
  lemma TrimCuts(t: string, drop: char -> bool) returns (i: nat, j: nat)
    ensures i <= j <= |t| && Trim(t, drop) == t[i..j]
    ensures All(t[..i], drop) && All(t[j..], drop)
    ensures i < j ==> !drop(t[i]) && !drop(t[j - 1])
  {
    i := TrimStartCuts(t, drop);
    var k := TrimEndCuts(t[i..], drop);
    j := i + k;
    assert t[i..][..k] == t[i..j];
    assert t[i..][k..] == t[j..];
  }

  lemma TrimTight(t: string, drop: char -> bool)
    requires Tight(t, drop)
    ensures Trim(t, drop) == t
  {
  }

  lemma TrimBlank(t: string, drop: char -> bool)
    ensures Trim(t, drop) == "" <==> All(t, drop)
  {
    var i, j := TrimCuts(t, drop);
    if i == j {
      assert forall k :: 0 <= k < |t| ==> if k < i then t[k] == t[..i][k] else t[k] == t[j..][k - j];
    }
  }

  lemma TrimLeading(c: char, t: string, drop: char -> bool)
    requires drop(c)
    ensures Trim([c] + t, drop) == Trim(t, drop)
  {
    assert ([c] + t)[1..] == t;
  }

  /** Trimming loses nothing but droppable characters. */
  lemma TrimKeeps(t: string, drop: char -> bool, k: nat)
    requires k < |t|
    ensures drop(t[k]) || t[k] in Trim(t, drop)
  {
    var i, j := TrimCuts(t, drop);
    if k < i {
      assert t[k] == t[..i][k];
    } else if j <= k {
      assert t[k] == t[j..][k - j];
    } else {
      assert t[k] == t[i..j][k - i];
    }
  }

  // ---- Splitting ----

  lemma {:induction false} SplitNone(s: string, c: char)
    requires c !in s
    ensures Split(s, c) == [s]
    decreases |s|
  {
    if s != "" {
      assert s[0] in s;
      SplitNone(s[1..], c);
      assert s == [s[0]] + s[1..];
    }
  }

  /** The pieces of a text with one more character in front. */
  function Grow(x: char, pieces: seq<string>): seq<string>
    requires pieces != []
  {
    [[x] + pieces[0]] + pieces[1..]
  }

  lemma SplitCons(x: char, s: string, c: char)
    ensures Split([x] + s, c) == if x == c then [""] + Split(s, c) else Grow(x, Split(s, c))
  {
    assert ([x] + s)[1..] == s;
  }

  lemma GrowConcat(x: char, r: seq<string>, t: seq<string>)
    requires r != []
    ensures Grow(x, r + t) == Grow(x, r) + t
  {
    assert (r + t)[1..] == r[1..] + t;
  }

  /** A separator between two texts separates their pieces. */
  lemma {:induction false} SplitAcross(a: string, c: char, b: string)
    ensures Split(a + [c] + b, c) == Split(a, c) + Split(b, c)
    decreases |a|
  {
    hide Split, Grow;
    if a == "" {
      assert a + [c] + b == [c] + b;
      SplitCons(c, b, c);
      SplitNone("", c);
    } else {
      var x, rest := a[0], a[1..];
      assert a == [x] + rest;
      assert a + [c] + b == [x] + (rest + [c] + b);
      SplitAcross(rest, c, b);
      SplitCons(x, rest + [c] + b, c);
      SplitCons(x, rest, c);
      GrowConcat(x, Split(rest, c), Split(b, c));
      assert ([""] + Split(rest, c)) + Split(b, c) == [""] + (Split(rest, c) + Split(b, c));
    }
  }

  /** Every character of a text is the separator or belongs to a piece. */
  lemma {:induction false} SplitKeeps(s: string, c: char, k: nat) returns (p: nat, q: nat)
    requires k < |s| && s[k] != c
    ensures p < |Split(s, c)| && q < |Split(s, c)[p]| && Split(s, c)[p][q] == s[k]
    decreases |s|
  {
    if k == 0 {
      p, q := 0, 0;
    } else {
      p, q := SplitKeeps(s[1..], c, k - 1);
      if s[0] == c {
        p := p + 1;
      } else if p == 0 {
        q := q + 1;
      }
    }
  }
}
