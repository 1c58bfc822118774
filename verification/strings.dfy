/**
 * String helpers the handlers rely on: substring search (what an unanchored
 * regular expression of literal alternatives tests), ASCII lower-casing,
 * and the decimal rendering of a non-negative integer.
 */
module Strings {

  /** True iff `p` is a prefix of `s`. */
  predicate IsPrefix(p: string, s: string) {
    |p| <= |s| && s[..|p|] == p
  }

  /** True iff `t` occurs at position `i` of `s`. */
  predicate OccursAt(s: string, t: string, i: nat) {
    i + |t| <= |s| && s[i..i + |t|] == t
  }

  /** Does `t` occur anywhere in `s`? This is what `RegExp.prototype.test`
      answers for a pattern that is a single literal without anchors. */
  function Contains(s: string, t: string): (r: bool)
    ensures r <==> exists i: nat :: OccursAt(s, t, i)
    decreases |s|
  {
    if IsPrefix(t, s) then
      assert OccursAt(s, t, 0);
      true
    else if |s| == 0 then
      false
    else
      var r := Contains(s[1..], t);
      assert r ==> exists i: nat :: OccursAt(s, t, i) by {
        if r {
          var j: nat :| OccursAt(s[1..], t, j);
          assert s[1..][j..j + |t|] == s[j + 1..j + 1 + |t|];
          assert OccursAt(s, t, j + 1);
        }
      }
      assert (exists i: nat :: OccursAt(s, t, i)) ==> r by {
        if exists i: nat :: OccursAt(s, t, i) {
          var i: nat :| OccursAt(s, t, i);
          assert i != 0;
          assert s[1..][i - 1..i - 1 + |t|] == s[i..i + |t|];
          assert OccursAt(s[1..], t, i - 1);
        }
      }
      r
  }

  /** A non-empty `t` never occurs in the empty string. */
  lemma NothingInEmpty(t: string)
    requires t != ""
    ensures !Contains("", t)
  {
  }

  /** If the first character of `t` is absent from `p` and `q` is shorter
      than `t`, `t` does not occur in `p + q`. */
  lemma AbsentFirstCharBefore(p: string, q: string, t: string)
    requires t != "" && |q| < |t|
    requires t[0] !in p
    ensures !Contains(p + q, t)
  {
    forall i: nat ensures !OccursAt(p + q, t, i) {
      if i + |t| <= |p + q| {
        assert (p + q)[i] == p[i];
        assert (p + q)[i..i + |t|][0] == (p + q)[i];
      }
    }
  }

  /** If the first character of `t` appears nowhere in `s`, `t` does not occur in `s`. */
  lemma AbsentFirstChar(s: string, t: string)
    requires t != ""
    requires forall i | 0 <= i < |s| :: s[i] != t[0]
    ensures !Contains(s, t)
  {
    forall i: nat ensures !OccursAt(s, t, i) {
      if i + |t| <= |s| {
        assert s[i..i + |t|][0] == s[i];
      }
    }
  }

  /** `String.prototype.toLowerCase` on one character, for the ASCII letters. */
  function LowerChar(c: char): char {
    if 'A' <= c <= 'Z' then (c as int - 'A' as int + 'a' as int) as char else c
  }

  /** `String.prototype.toLowerCase`, character by character (ASCII letters only). */
  function Lower(s: string): (r: string)
    ensures |r| == |s|
    ensures forall i | 0 <= i < |s| :: r[i] == LowerChar(s[i])
  {
    seq(|s|, i requires 0 <= i < |s| => LowerChar(s[i]))
  }

  /** Lower-casing twice is lower-casing once. */
  lemma LowerIdempotent(s: string)
    ensures Lower(Lower(s)) == Lower(s)
  {
  }

  /** Lower-casing distributes over concatenation. */
  lemma LowerAppend(a: string, b: string)
    ensures Lower(a + b) == Lower(a) + Lower(b)
  {
  }

  /** Lower-casing commutes with taking a slice. */
  lemma LowerSlice(s: string, i: nat, j: nat)
    requires i <= j <= |s|
    ensures Lower(s)[i..j] == Lower(s[i..j])
  {
    assert forall k | 0 <= k < j - i :: Lower(s)[i..j][k] == LowerChar(s[i..j][k]);
  }

  predicate IsDigit(c: char) {
    '0' <= c <= '9'
  }

  predicate AllDigits(s: string) {
    forall i | 0 <= i < |s| :: IsDigit(s[i])
  }

  function DigitChar(d: nat): (c: char)
    requires d < 10
    ensures IsDigit(c)
  {
    ('0' as int + d) as char
  }

  function DigitValue(c: char): (d: nat)
    requires IsDigit(c)
    ensures d < 10
  {
    c as int - '0' as int
  }

  /** The decimal numeral of `n`, as JavaScript renders an integral number
      below 10^21 when it is concatenated to a string. */
  function Decimal(n: nat): (s: string)
    ensures |s| >= 1
    ensures AllDigits(s)
    ensures s[0] == '0' ==> n == 0
  {
    if n < 10 then [DigitChar(n)] else Decimal(n / 10) + [DigitChar(n % 10)]
  }

  /** The number a string of decimal digits denotes. */
  function DecimalValue(s: string): nat
    requires AllDigits(s)
  {
    if |s| == 0 then 0 else 10 * DecimalValue(s[..|s| - 1]) + DigitValue(s[|s| - 1])
  }

  /** Reading back a rendered numeral gives the number. */
  lemma {:induction false} DecimalRoundTrip(n: nat)
    ensures DecimalValue(Decimal(n)) == n
  {
    if n >= 10 {
      var s := Decimal(n);
      assert s[..|s| - 1] == Decimal(n / 10);
      DecimalRoundTrip(n / 10);
    }
  }

  /** Distinct numbers have distinct numerals. */
  lemma DecimalInjective(m: nat, n: nat)
    requires Decimal(m) == Decimal(n)
    ensures m == n
  {
    DecimalRoundTrip(m);
    DecimalRoundTrip(n);
  }

  /** The length of the longest prefix of `s` made of digits. */
  function DigitRun(s: string): (n: nat)
    ensures n <= |s|
    ensures forall i | 0 <= i < n :: IsDigit(s[i])
    ensures n == |s| || !IsDigit(s[n])
  {
    if |s| > 0 && IsDigit(s[0]) then
      var m := DigitRun(s[1..]);
      assert forall i | 1 <= i < m + 1 :: s[i] == s[1..][i - 1];
      m + 1
    else
      0
  }

  /** The longest prefix of `s` made of digits, and what follows it. */
  function SplitDigits(s: string): (r: (string, string))
    ensures r.0 + r.1 == s
    ensures AllDigits(r.0)
    ensures r.1 == "" || !IsDigit(r.1[0])
  {
    var n := DigitRun(s);
    assert s[..n] + s[n..] == s;
    (s[..n], s[n..])
  }

  lemma {:induction false} DigitRunAt(d: string, rest: string)
    requires AllDigits(d)
    requires rest == "" || !IsDigit(rest[0])
    ensures DigitRun(d + rest) == |d|
  {
    if |d| > 0 {
      assert (d + rest)[1..] == d[1..] + rest;
      DigitRunAt(d[1..], rest);
    } else {
      assert d + rest == rest;
    }
  }

  /** A run of digits followed by a non-digit (or nothing) is split exactly there. */
  lemma SplitDigitsAt(d: string, rest: string)
    requires AllDigits(d)
    requires rest == "" || !IsDigit(rest[0])
    ensures SplitDigits(d + rest) == (d, rest)
  {
    DigitRunAt(d, rest);
    assert (d + rest)[..|d|] == d;
    assert (d + rest)[|d|..] == rest;
  }
}
