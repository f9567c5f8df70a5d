/**
 * Text helpers for column names: ASCII lower-casing, character replacement,
 * stripping, decimal rendering of integers, and the lexicographic order in
 * which pandas sorts string labels.
 */
module Strings {
  import opened Seqs

  predicate IsUpper(c: char) { 'A' <= c <= 'Z' }

  function LowerChar(c: char): char {
    if IsUpper(c) then (c as int + 32) as char else c
  }

  /** `str.lower()` on the ASCII letters. */
  function Lower(s: string): string {
    seq(|s|, i requires 0 <= i < |s| => LowerChar(s[i]))
  }

  predicate HasNoUpper(s: string) {
    forall i :: 0 <= i < |s| ==> !IsUpper(s[i])
  }

  lemma LowerHasNoUpper(s: string)
    ensures |Lower(s)| == |s| && HasNoUpper(Lower(s))
  {
  }

  /** Lower-casing a text without upper-case letters changes nothing. */
  lemma LowerUnchanged(s: string)
    requires HasNoUpper(s)
    ensures Lower(s) == s
  {
  }

  /** `str.replace(a, b)` for single characters. */
  function ReplaceChar(s: string, a: char, b: char): string {
    seq(|s|, i requires 0 <= i < |s| => if s[i] == a then b else s[i])
  }

  /** `str.replace(c, '')` for a single character. */
  function RemoveChar(s: string, c: char): string {
    if s == [] then [] else (if s[0] == c then [] else [s[0]]) + RemoveChar(s[1..], c)
  }

  /** `str.lstrip(c)` for a single character. */
  function LStrip(s: string, c: char): string {
    if s != [] && s[0] == c then LStrip(s[1..], c) else s
  }

  lemma {:induction false} RemoveCharSpec(s: string, c: char)
    ensures c !in RemoveChar(s, c)
    ensures forall x :: x in RemoveChar(s, c) <==> x in s && x != c
  {
    if s != [] {
      RemoveCharSpec(s[1..], c);
    }
  }

  lemma {:induction false} RemoveCharAbsent(s: string, c: char)
    requires c !in s
    ensures RemoveChar(s, c) == s
  {
    if s != [] {
      RemoveCharAbsent(s[1..], c);
      assert [s[0]] + s[1..] == s;
    }
  }

  lemma {:induction false} LStripSpec(s: string, c: char)
    ensures LStrip(s, c) == [] || LStrip(s, c)[0] != c
    ensures exists k :: 0 <= k <= |s| && LStrip(s, c) == s[k..] && forall i :: 0 <= i < k ==> s[i] == c
  {
    if s != [] && s[0] == c {
      LStripSpec(s[1..], c);
      var k :| 0 <= k <= |s[1..]| && LStrip(s[1..], c) == s[1..][k..] && forall i :: 0 <= i < k ==> s[1..][i] == c;
      assert s[1..][k..] == s[k + 1..];
      assert forall i :: 0 <= i < k + 1 ==> s[i] == c by {
        forall i | 0 <= i < k + 1 ensures s[i] == c {
          if i > 0 { assert s[i] == s[1..][i - 1]; }
        }
      }
    } else {
      assert LStrip(s, c) == s[0..];
    }
  }

  // ---- decimal digits ----

  predicate IsDigit(c: char) { '0' <= c <= '9' }

  function DigitChar(d: int): char
    requires 0 <= d <= 9
  {
    ('0' as int + d) as char
  }

  function DigitValue(c: char): int
    requires IsDigit(c)
  {
    c as int - '0' as int
  }

  predicate AllDigits(s: string) {
    forall i :: 0 <= i < |s| ==> IsDigit(s[i])
  }

  /** Python's `str(n)` for a natural number. */
  function NatToString(n: nat): (r: string)
    ensures |r| > 0 && AllDigits(r)
  {
    if n < 10 then [DigitChar(n)] else NatToString(n / 10) + [DigitChar(n % 10)]
  }

  /** Python's `str(i)` for an integer. */
  function IntToString(i: int): (r: string)
    ensures |r| > 0
  {
    if i < 0 then "-" + NatToString(-i) else NatToString(i)
  }

  /** Reads a decimal numeral. */
  function ParseNat(s: string): nat
    requires AllDigits(s)
  {
    if s == [] then 0 else ParseNat(s[..|s| - 1]) * 10 + DigitValue(s[|s| - 1])
  }

  lemma {:induction false} ParseNatToString(n: nat)
    ensures ParseNat(NatToString(n)) == n
  {
    if n >= 10 {
      ParseNatToString(n / 10);
      var s := NatToString(n / 10) + [DigitChar(n % 10)];
      assert s[..|s| - 1] == NatToString(n / 10);
    }
  }

  /** A rendered integer holds only digits and a leading minus sign. */
  lemma IntToStringChars(i: int)
    ensures forall k :: 0 <= k < |IntToString(i)| ==> IsDigit(IntToString(i)[k]) || IntToString(i)[k] == '-'
  {
    if i < 0 {
      var d := NatToString(-i);
      assert forall k :: 1 <= k < |IntToString(i)| ==> IntToString(i)[k] == d[k - 1];
    }
  }

  /** Distinct integers are rendered as distinct strings, so lag column names never collide. */
  lemma IntToStringInjective(a: int, b: int)
    requires IntToString(a) == IntToString(b)
    ensures a == b
  {
    assert IntToString(a)[0] == '-' <==> a < 0;
    assert IntToString(b)[0] == '-' <==> b < 0;
    if a < 0 {
      assert NatToString(-a) == IntToString(a)[1..];
      assert NatToString(-b) == IntToString(b)[1..];
      ParseNatToString(-a);
      ParseNatToString(-b);
    } else {
      ParseNatToString(a);
      ParseNatToString(b);
    }
  }

  // ---- lexicographic order (Python's `<` on str) ----

  predicate LexLess(a: string, b: string) {
    if a == [] then b != []
    else if b == [] then false
    else if a[0] != b[0] then a[0] < b[0]
    else LexLess(a[1..], b[1..])
  }

  lemma {:induction false} LexIrreflexive(a: string)
    ensures !LexLess(a, a)
  {
    if a != [] { LexIrreflexive(a[1..]); }
  }

  lemma {:induction false} LexTransitive(a: string, b: string, c: string)
    requires LexLess(a, b) && LexLess(b, c)
    ensures LexLess(a, c)
  {
    if a != [] && b != [] && c != [] && a[0] == b[0] && b[0] == c[0] {
      LexTransitive(a[1..], b[1..], c[1..]);
    }
  }

  lemma {:induction false} LexConnected(a: string, b: string)
    requires a != b
    ensures LexLess(a, b) || LexLess(b, a)
  {
    if a != [] && b != [] && a[0] == b[0] {
      assert a == [a[0]] + a[1..] && b == [b[0]] + b[1..];
      LexConnected(a[1..], b[1..]);
    }
  }

  lemma LexIsStrictTotalOrder()
    ensures StrictTotalOrder(LexLess)
  {
    forall a ensures !LexLess(a, a) { LexIrreflexive(a); }
    forall a, b, c | LexLess(a, b) && LexLess(b, c) ensures LexLess(a, c) { LexTransitive(a, b, c); }
    forall a, b | a != b ensures LexLess(a, b) || LexLess(b, a) { LexConnected(a, b); }
  }
}
