/**
 * Decimal rendering of file numbers, as in `String(i + 1).padStart(3, '0')`,
 * and the facts that make the scrapers' file names collision-free.
 */
module Naming {

  predicate IsDigit(c: char) {
    '0' <= c <= '9'
  }

  predicate AllDigits(s: string) {
    forall k :: 0 <= k < |s| ==> IsDigit(s[k])
  }

  function DigitChar(d: nat): (c: char)
    requires d < 10
    ensures IsDigit(c) && c as int - '0' as int == d
  {
    ('0' as int + d) as char
  }

  /** `String(n)` for a non-negative integer: its decimal digits, without leading zeros. */
  function NatToString(n: nat): (s: string)
    ensures |s| >= 1 && AllDigits(s)
    decreases n
  {
    if n < 10 then [DigitChar(n)] else NatToString(n / 10) + [DigitChar(n % 10)]
  }

  /** The number a string of decimal digits denotes; leading zeros contribute nothing. */
  function DigitsValue(s: string): nat
    requires AllDigits(s)
    decreases |s|
  {
    if s == [] then 0 else DigitsValue(s[..|s| - 1]) * 10 + (s[|s| - 1] as int - '0' as int)
  }

  /** Reading back the decimal rendering of `n` gives `n`. */
  lemma {:induction false} NatToStringValue(n: nat)
    ensures DigitsValue(NatToString(n)) == n
    decreases n
  {
    if n >= 10 {
      NatToStringValue(n / 10);
      var s := NatToString(n);
      assert s[..|s| - 1] == NatToString(n / 10);
    }
  }

  /** `s.padStart(width, fill)`: `fill` repeated in front of `s` up to `width` characters. */
  function PadStart(s: string, width: nat, fill: char): (r: string)
    ensures |r| == if |s| >= width then |s| else width
    ensures r[|r| - |s|..] == s
    ensures forall k :: 0 <= k < |r| - |s| ==> r[k] == fill
  {
    if |s| >= width then s else seq(width - |s|, _ => fill) + s
  }

  /** Zeros in front of a digit string do not change its value. */
  lemma {:induction false} LeadingZerosValue(z: string, s: string)
    requires forall k :: 0 <= k < |z| ==> z[k] == '0'
    requires AllDigits(s)
    ensures AllDigits(z + s) && DigitsValue(z + s) == DigitsValue(s)
    decreases |s|
  {
    if s == [] {
      ZerosValue(z);
      assert z + s == z;
    } else {
      var t := s[..|s| - 1];
      LeadingZerosValue(z, t);
      assert (z + s)[..|z + s| - 1] == z + t;
    }
  }

  lemma {:induction false} ZerosValue(z: string)
    requires forall k :: 0 <= k < |z| ==> z[k] == '0'
    ensures AllDigits(z) && DigitsValue(z) == 0
    decreases |z|
  {
    if z != [] { ZerosValue(z[..|z| - 1]); }
  }

  /** The three-digit, zero-padded file number of `n`. */
  function Padded(n: nat): (r: string)
    ensures AllDigits(r) && |r| >= 3
  {
    PadStart(NatToString(n), 3, '0')
  }

  /** The padded file number reads back as `n`. */
  lemma PaddedValue(n: nat)
    ensures DigitsValue(Padded(n)) == n
  {
    var s := NatToString(n);
    var r := Padded(n);
    NatToStringValue(n);
    var z := r[..|r| - |s|];
    assert r == z + s;
    LeadingZerosValue(z, s);
  }

  /** Distinct numbers never share a padded rendering. */
  lemma PaddedInjective(m: nat, n: nat)
    ensures Padded(m) == Padded(n) ==> m == n
  {
    PaddedValue(m);
    PaddedValue(n);
  }

  /**
   * A run of digits followed by a suffix that starts with a non-digit splits
   * in exactly one way: the digits end where the suffix begins.
   */
  lemma DigitsThenSuffix(a: string, c: string, b: string, d: string)
    requires AllDigits(a) && AllDigits(b)
    requires c != [] && !IsDigit(c[0]) && d != [] && !IsDigit(d[0])
    requires a + c == b + d
    ensures a == b && c == d
  {
    if |a| < |b| {
      CharOfConcat(a, c, |a|);
      CharOfConcat(b, d, |a|);
      assert false;
    } else if |b| < |a| {
      CharOfConcat(a, c, |b|);
      CharOfConcat(b, d, |b|);
      assert false;
    }
    assert a == (a + c)[..|a|];
    assert b == (b + d)[..|b|];
  }

  /**
   * A name made of a fixed prefix, a padded number and an extension (a suffix
   * beginning with `.`) determines the number: two such names are equal only when the
   * numbers and the suffixes are.
   */
  lemma NumberedNameInjective(prefix: string, m: nat, n: nat, e1: string, e2: string)
    requires e1 != [] && e1[0] == '.' && e2 != [] && e2[0] == '.'
    ensures prefix + (Padded(m) + e1) == prefix + (Padded(n) + e2) ==> m == n && e1 == e2
  {
    var p, q := Padded(m), Padded(n);
    if prefix + (p + e1) == prefix + (q + e2) {
      assert !IsDigit(e1[0]) && !IsDigit(e2[0]);
      CommonPrefix(prefix, p + e1, q + e2);
      DigitsThenSuffix(p, e1, q, e2);
      PaddedInjective(m, n);
    }
  }

  /** Names made of one prefix, a padded number and one suffix are equal only for equal numbers. */
  lemma FramedNumberInjective(prefix: string, suffix: string, m: nat, n: nat)
    ensures prefix + (Padded(m) + suffix) == prefix + (Padded(n) + suffix) ==> m == n
  {
    var p, q := Padded(m), Padded(n);
    if prefix + (p + suffix) == prefix + (q + suffix) {
      FramedEqual(prefix, p, q, suffix);
      PaddedInjective(m, n);
    }
  }

  lemma CharOfConcat(x: string, y: string, k: int)
    ensures 0 <= k < |x| ==> (x + y)[k] == x[k]
    ensures |x| <= k < |x| + |y| ==> (x + y)[k] == y[k - |x|]
  {
  }

  lemma CommonPrefix(prefix: string, x: string, y: string)
    requires prefix + x == prefix + y
    ensures x == y
  {
    assert x == (prefix + x)[|prefix|..];
    assert y == (prefix + y)[|prefix|..];
  }

  /** Names that agree in prefix and suffix agree in the middle. */
  lemma FramedEqual(prefix: string, x: string, y: string, suffix: string)
    requires prefix + (x + suffix) == prefix + (y + suffix)
    ensures x == y
  {
    CommonPrefix(prefix, x + suffix, y + suffix);
    assert x == (x + suffix)[..|x|];
    assert y == (y + suffix)[..|y|];
  }
}
