/** The two pieces of Python string behaviour the exam page depends on:
    the substring test `p in s` (used to read the selected grade) and the
    decimal rendering of a natural number inside an f-string (used to build
    the positional keys "A1", "B17", ...). */
module Strings {

  /** `p` is a prefix of `t`. */
  predicate IsPrefix(p: string, t: string)
  {
    |p| <= |t| && t[..|p|] == p
  }

  /** Specification of Python's `p in s` on strings: `p` starts at some
      position of `s` (the empty string occurs everywhere). */
  ghost predicate Occurs(p: string, s: string)
  {
    exists i :: 0 <= i <= |s| && IsPrefix(p, s[i..])
  }

  /** Occurrence at the first position, or somewhere in the rest. */
  lemma OccursStep(s: string, p: string)
    ensures Occurs(p, s) <==> IsPrefix(p, s) || (|s| > 0 && Occurs(p, s[1..]))
  {
    assert s[0..] == s;
    if |s| > 0 && Occurs(p, s[1..]) {
      var i :| 0 <= i <= |s[1..]| && IsPrefix(p, s[1..][i..]);
      assert s[1..][i..] == s[i + 1..];
      assert IsPrefix(p, s[i + 1..]);
    }
    if Occurs(p, s) && !IsPrefix(p, s) {
      var i :| 0 <= i <= |s| && IsPrefix(p, s[i..]);
      assert i != 0;
      assert s[1..][i - 1..] == s[i..];
      assert IsPrefix(p, s[1..][i - 1..]);
    }
  }

  /** Python's `p in s`: scan the start positions of `s` left to right; the
      scan succeeds exactly when `p` occurs in `s`. */
  function Contains(s: string, p: string): (found: bool)
    ensures found <==> Occurs(p, s)
    decreases |s|
  {
    OccursStep(s, p);
    if IsPrefix(p, s) then true
    else if |s| == 0 then false
    else Contains(s[1..], p)
  }

  /** A non-empty `p` whose first character never appears in `s` is not
      found in `s`. */
  lemma {:induction false} FirstCharAbsent(s: string, p: string)
    requires |p| > 0 && p[0] !in s
    ensures !Contains(s, p)
    decreases |s|
  {
    if |s| > 0 {
      assert s[0] in s;
      assert forall c :: c in s[1..] ==> c in s;
      FirstCharAbsent(s[1..], p);
    }
  }

  /** The character for a decimal digit. */
  function DigitChar(d: nat): (c: char)
    requires d < 10
    ensures '0' <= c <= '9'
    ensures c as int - '0' as int == d
  {
    (48 + d) as char
  }

  /** The number a string of decimal digits denotes, most significant
      digit first (Horner evaluation). */
  function DigitsValue(s: string): nat
    requires forall k :: 0 <= k < |s| ==> '0' <= s[k] <= '9'
    decreases |s|
  {
    if |s| == 0 then 0
    else DigitsValue(s[..|s| - 1]) * 10 + (s[|s| - 1] as int - '0' as int)
  }

  /** Python's `str(n)` for a natural number: decimal digits, most
      significant first, no leading zero (`DecimalValue` shows they denote
      `n`). */
  function Decimal(n: nat): (s: string)
    ensures |s| >= 1
    ensures |s| == 1 <==> n < 10
    ensures s[0] == '0' ==> n == 0
    ensures forall k :: 0 <= k < |s| ==> '0' <= s[k] <= '9'
    decreases n
  {
    if n < 10 then [DigitChar(n)] else Decimal(n / 10) + [DigitChar(n % 10)]
  }

  /** Read back as a number, `str(n)` denotes `n`. */
  lemma {:induction false} DecimalValue(n: nat)
    ensures DigitsValue(Decimal(n)) == n
    decreases n
  {
    if n >= 10 {
      DecimalValue(n / 10);
      var s := Decimal(n);
      assert s[..|s| - 1] == Decimal(n / 10);
    }
  }

  /** Different numbers render differently. */
  lemma DecimalInjective(a: nat, b: nat)
    requires Decimal(a) == Decimal(b)
    ensures a == b
  {
    DecimalValue(a);
    DecimalValue(b);
  }
}
