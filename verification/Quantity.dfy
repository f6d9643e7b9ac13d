/** Strict hexadecimal quantities (`hex_to_u64` in `src/health.rs`). */
module Quantity {
  import opened Wrappers
  import opened U64
  import opened Json
  import opened Strings

  // ---- Reading ----

  predicate HexDigits(ds: string) {
    All(ds, IsHex)
  }

  /** `u64::from_str_radix(ds, 16)`: one checked multiplication and one checked addition per digit, from the left. */
  function FromRadix16(ds: string, acc: u64): Option<u64>
    requires HexDigits(ds)
    decreases |ds|
  {
    if ds == "" then Some(acc)
    else if acc as int * 16 >= LIMIT then None
    else
      var shifted := acc as int * 16;
      var next := shifted + HexDigit(ds[0]);
      if next >= LIMIT then None else FromRadix16(ds[1..], next as u64)
  }

  function HexToU64(s: string): Option<u64> {
    if |s| < 2 || s[..2] != "0x" then None
    else
      var ds := s[2..];
      if ds == "" || (|ds| > 1 && ds[0] == '0') || !HexDigits(ds) then None
      else FromRadix16(ds, 0)
  }

  // ---- Meaning and printing ----

  function HexChar(d: nat): (c: char)
    requires d < 16
    ensures IsHex(c) && HexDigit(c) == d
  {
    if d < 10 then ('0' as int + d) as char else ('a' as int + d - 10) as char
  }

  /** The canonical digits: lower case, no leading zero except in zero itself. */
  function Hex(n: nat): (ds: string)
    ensures HexDigits(ds) && ds != ""
    decreases n
  {
    if n < 16 then [HexChar(n)] else Hex(n / 16) + [HexChar(n % 16)]
  }

  /** What the reader accepts, for any size of number. */
  predicate Canonical(ds: string) {
    ds != "" && HexDigits(ds) && (|ds| > 1 ==> ds[0] != '0')
  }

  // ---- The checked reader computes the value, or rejects exactly the values that do not fit ----

  lemma {:induction false} ValueCons(c: char, ds: string)
    requires IsHex(c) && HexDigits(ds)
    ensures HexDigits([c] + ds)
    ensures Positional([c] + ds, 16) == Shifted(HexDigit(c), |ds|) + Positional(ds, 16)
    decreases |ds|
  {
    if ds == "" {
      assert [c] + ds == [c];
      assert [c][..0] == "";
    } else {
      var front := ds[..|ds| - 1];
      ValueCons(c, front);
      assert ([c] + ds)[..|ds|] == [c] + front;
    }
  }

  /** `n` followed by `k` zero digits. */
  function Shifted(n: nat, k: nat): (r: nat)
    ensures r >= n
  {
    if k == 0 then n else 16 * Shifted(n, k - 1)
  }

  lemma {:induction false} ShiftedSum(a: nat, b: nat, k: nat)
    ensures Shifted(a + b, k) == Shifted(a, k) + Shifted(b, k)
  {
    if k > 0 {
      ShiftedSum(a, b, k - 1);
    }
  }

  lemma {:induction false} ShiftedMore(n: nat, k: nat)
    ensures Shifted(16 * n, k) == Shifted(n, k + 1)
  {
    if k > 0 {
      ShiftedMore(n, k - 1);
    }
  }

  lemma FromRadixUnfold(ds: string, acc: u64)
    requires HexDigits(ds)
    ensures ds == "" ==> FromRadix16(ds, acc) == Some(acc)
    ensures ds != "" ==>
              var next := acc as int * 16 + HexDigit(ds[0]);
              FromRadix16(ds, acc) == if next < LIMIT then FromRadix16(ds[1..], next as u64) else None
  {
    hide HexDigit, IsHex;
  }

  lemma TotalUnfold(ds: string, n: nat)
    requires HexDigits(ds)
    ensures ds == "" ==> Shifted(n, |ds|) + Positional(ds, 16) == n
    ensures ds != "" ==>
              Shifted(n, |ds|) + Positional(ds, 16) ==
              Shifted(n * 16 + HexDigit(ds[0]), |ds[1..]|) + Positional(ds[1..], 16)
  {
    hide HexDigit, IsHex;
    if ds != "" {
      var rest := ds[1..];
      assert ds == [ds[0]] + rest;
      ValueCons(ds[0], rest);
      ShiftedMore(n, |rest|);
      ShiftedSum(16 * n, HexDigit(ds[0]), |rest|);
    }
  }

  lemma {:induction false} FromRadixIff(ds: string, acc: u64)
    requires HexDigits(ds)
    ensures var total := Shifted(acc as nat, |ds|) + Positional(ds, 16);
            FromRadix16(ds, acc) == if total < LIMIT then Some(total as u64) else None
    decreases |ds|
  {
    hide HexDigit, IsHex, FromRadix16, Shifted, Positional;
    FromRadixUnfold(ds, acc);
    TotalUnfold(ds, acc as nat);
    if ds != "" {
      var next := acc as nat * 16 + HexDigit(ds[0]);
      if next < LIMIT {
        FromRadixIff(ds[1..], next as u64);
      }
    }
  }

  /** Exactly the canonical quantities below 2 to the 64 are accepted, and the value is returned. */
  lemma HexToU64Iff(s: string, v: u64)
    ensures HexToU64(s) == Some(v) <==>
            |s| >= 2 && s[..2] == "0x" && Canonical(s[2..]) && Positional(s[2..], 16) == v as nat
  {
    if |s| >= 2 && s[..2] == "0x" && Canonical(s[2..]) {
      FromRadixIff(s[2..], 0);
      ShiftedZero(|s[2..]|);
    }
  }

  lemma {:induction false} ShiftedZero(k: nat)
    ensures Shifted(0, k) == 0
  {
    if k > 0 {
      ShiftedZero(k - 1);
    }
  }

  // ---- Reader and canonical printer are inverse ----

  lemma {:induction false} HexCanonical(n: nat)
    ensures Canonical(Hex(n)) && Positional(Hex(n), 16) == n && (Hex(n)[0] == '0' ==> n == 0)
    decreases n
  {
    if n < 16 {
      assert Hex(n)[..0] == "";
    } else {
      HexCanonical(n / 16);
      assert Hex(n)[..|Hex(n)| - 1] == Hex(n / 16);
    }
  }

  lemma RoundTrip(v: u64)
    ensures HexToU64("0x" + Hex(v as nat)) == Some(v)
  {
    var s := "0x" + Hex(v as nat);
    assert s[..2] == "0x" && s[2..] == Hex(v as nat);
    HexCanonical(v as nat);
    HexToU64Iff(s, v);
  }

  lemma {:induction false} CanonicalPositive(ds: string)
    requires HexDigits(ds) && ds != "" && ds[0] != '0'
    ensures Positional(ds, 16) > 0
    decreases |ds|
  {
    if |ds| > 1 {
      CanonicalPositive(ds[..|ds| - 1]);
    }
  }

  /** Printing the value gives the digits back, up to letter case. */
  lemma {:induction false} PrintsBack(ds: string)
    requires Canonical(ds)
    ensures Hex(Positional(ds, 16)) == Lower(ds)
    decreases |ds|
  {
    var front, last := ds[..|ds| - 1], ds[|ds| - 1];
    assert HexChar(HexDigit(last)) == LowerChar(last);
    if front == "" {
      assert Lower(ds) == [LowerChar(last)];
    } else {
      PrintsBack(front);
      CanonicalPositive(front);
      assert Positional(ds, 16) / 16 == Positional(front, 16) && Positional(ds, 16) % 16 == HexDigit(last);
      assert Lower(ds) == Lower(front) + [LowerChar(last)];
    }
  }

  lemma AcceptedPrintsBack(s: string, v: u64)
    requires HexToU64(s) == Some(v)
    ensures |s| >= 2 && s[..2] == "0x" && Hex(v as nat) == Lower(s[2..])
  {
    HexToU64Iff(s, v);
    PrintsBack(s[2..]);
  }

  /** Two accepted texts denote the same number exactly when they differ in letter case only. */
  lemma SameValueIff(s: string, t: string)
    requires HexToU64(s).Some? && HexToU64(t).Some?
    ensures HexToU64(s) == HexToU64(t) <==> Lower(s[2..]) == Lower(t[2..])
  {
    var v, w := HexToU64(s).value, HexToU64(t).value;
    AcceptedPrintsBack(s, v);
    AcceptedPrintsBack(t, w);
    if Lower(s[2..]) == Lower(t[2..]) {
      HexCanonical(v as nat);
      HexCanonical(w as nat);
    }
  }

  // ---- Letter case ----

  /** The digits by their place in the alphabet of hexadecimal, in both letter cases. */
  lemma HexDigitTable(d: nat)
    requires d < 16
    ensures HexDigit("0123456789abcdef"[d]) == d && HexDigit("0123456789ABCDEF"[d]) == d
    ensures HexChar(d) == "0123456789abcdef"[d]
  {
  }

  lemma {:induction false} PositionalLower(ds: string)
    requires HexDigits(ds)
    ensures HexDigits(Lower(ds)) && Positional(Lower(ds), 16) == Positional(ds, 16)
    decreases |ds|
  {
    hide LowerChar, HexDigit, IsHex;
    if ds != "" {
      var front, last := ds[..|ds| - 1], ds[|ds| - 1];
      PositionalLower(front);
      LowerDigit(last);
      assert Lower(ds) == Lower(front) + [LowerChar(last)];
      assert Lower(ds)[..|ds| - 1] == Lower(front);
    }
  }

  lemma LowerDigit(c: char)
    requires IsHex(c)
    ensures IsHex(LowerChar(c)) && HexDigit(LowerChar(c)) == HexDigit(c)
    ensures LowerChar(c) == '0' <==> c == '0'
  {
  }

  /**
   The reader without arithmetic: a text is accepted with a value exactly when it is 0x and the value's canonical
   digits, in any letter case.
   */
  lemma LetterCaseIff(s: string, v: u64)
    ensures HexToU64(s) == Some(v) <==>
            |s| >= 2 && s[..2] == "0x" && HexDigits(s[2..]) && Lower(s[2..]) == Hex(v as nat)
  {
    hide HexToU64, HexDigits, Lower, Hex, Positional;
    HexToU64Iff(s, v);
    if HexToU64(s) == Some(v) {
      AcceptedPrintsBack(s, v);
    }
    if |s| >= 2 && s[..2] == "0x" && HexDigits(s[2..]) && Lower(s[2..]) == Hex(v as nat) {
      PositionalLower(s[2..]);
      HexCanonical(v as nat);
      CanonicalLower(s[2..]);
    }
  }

  lemma CanonicalLower(ds: string)
    requires HexDigits(ds)
    ensures Canonical(Lower(ds)) ==> Canonical(ds)
  {
    if ds != "" {
      LowerDigit(ds[0]);
    }
  }

  /** The bound is two to the 64. */
  lemma LimitIs()
    ensures LIMIT == 65536 * 65536 * 65536 * 65536
  {
  }
}
