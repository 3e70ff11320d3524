/**
  String facts the hashing engine relies on: the lexicographic order that
  Rust's `<` on `String` uses, the decimal rendering that `format!("{}", n)`
  produces for the integer fields of a block, and a splicing fact about
  concatenation.
 */
module Strings {

  // ---------------------------------------------------------------------------
  // Lexicographic order
  // ---------------------------------------------------------------------------

  /** Rust's `<` on strings: compare character by character (for UTF-8 text
      this agrees with comparing the bytes); a proper prefix is smaller.
      Dafny's own `<` on sequences means "proper prefix", which is a
      different relation. */
  predicate LexLess(a: string, b: string)
  {
    if |a| == 0 then |b| > 0
    else if |b| == 0 then false
    else if a[0] != b[0] then a[0] < b[0]
    else LexLess(a[1..], b[1..])
  }

  predicate LexLeq(a: string, b: string)
  {
    LexLess(a, b) || a == b
  }

  lemma {:induction false} LexLessIrreflexive(a: string)
    ensures !LexLess(a, a)
    decreases |a|
  {
    if |a| > 0 {
      LexLessIrreflexive(a[1..]);
    }
  }

  lemma {:induction false} LexLessAsymmetric(a: string, b: string)
    ensures LexLess(a, b) ==> !LexLess(b, a)
    decreases |a|
  {
    if |a| > 0 && |b| > 0 && a[0] == b[0] {
      LexLessAsymmetric(a[1..], b[1..]);
    }
  }

  lemma {:induction false} LexLessTotal(a: string, b: string)
    ensures a != b ==> LexLess(a, b) || LexLess(b, a)
    decreases |a|
  {
    if |a| > 0 && |b| > 0 && a[0] == b[0] {
      LexLessTotal(a[1..], b[1..]);
      if a[1..] == b[1..] {
        assert a == [a[0]] + a[1..] && b == [b[0]] + b[1..];
      }
    }
  }

  lemma {:induction false} LexLessTransitive(a: string, b: string, c: string)
    ensures LexLess(a, b) && LexLess(b, c) ==> LexLess(a, c)
    decreases |a|
  {
    if |a| > 0 && |b| > 0 && |c| > 0 && a[0] == b[0] == c[0] {
      LexLessTransitive(a[1..], b[1..], c[1..]);
    }
  }

  /** A proper prefix sorts first, so Dafny's prefix order is contained in
      the lexicographic one. */
  lemma {:induction false} PrefixIsLexLess(a: string, b: string)
    ensures a < b ==> LexLess(a, b)
    decreases |a|
  {
    if a < b && |a| > 0 {
      assert a[1..] < b[1..] by {
        assert a[1..] == b[1..|a|];
      }
      PrefixIsLexLess(a[1..], b[1..]);
    }
  }

  /** "a comes no later than b" is the negation of "b sorts before a", so
      the two branches of a lexicographic comparison cover every pair. */
  lemma LexLeqOrder(a: string, b: string)
    ensures LexLeq(a, b) <==> !LexLess(b, a)
  {
    LexLessIrreflexive(a);
    LexLessAsymmetric(a, b);
    LexLessTotal(a, b);
  }

  // ---------------------------------------------------------------------------
  // Decimal rendering
  // ---------------------------------------------------------------------------

  predicate IsDigit(c: char)
  {
    '0' <= c <= '9'
  }

  function DigitChar(d: nat): (c: char)
    requires d < 10
    ensures IsDigit(c)
  {
    ('0' as int + d) as char
  }

  /** `format!("{}", n)` for an unsigned integer: most significant digit
      first, no leading zeros, "0" for zero. */
  function NatToString(n: nat): (s: string)
    ensures |s| > 0
    ensures forall k :: 0 <= k < |s| ==> IsDigit(s[k])
    ensures s[0] == '0' ==> n == 0
    decreases n
  {
    if n < 10 then [DigitChar(n)] else NatToString(n / 10) + [DigitChar(n % 10)]
  }

  /** `format!("{}", i)` for a signed integer: a minus sign before the
      digits of the magnitude when negative. */
  function IntToString(i: int): (s: string)
    ensures |s| > 0
    ensures s[0] == '-' <==> i < 0
  {
    if i < 0 then "-" + NatToString(-i) else NatToString(i)
  }

  /** The value of a string of decimal digits; the partner of NatToString. */
  function DecimalValue(s: string): int
    decreases |s|
  {
    if |s| == 0 then 0
    else DecimalValue(s[..|s| - 1]) * 10 + (s[|s| - 1] as int - '0' as int)
  }

  /** Reads back what IntToString writes. */
  function ParseInt(s: string): int
  {
    if |s| > 0 && s[0] == '-' then -DecimalValue(s[1..]) else DecimalValue(s)
  }

  lemma {:induction false} NatToStringRoundTrip(n: nat)
    ensures DecimalValue(NatToString(n)) == n
    decreases n
  {
    if n >= 10 {
      var s := NatToString(n);
      assert s[..|s| - 1] == NatToString(n / 10);
      NatToStringRoundTrip(n / 10);
    }
  }

  lemma IntToStringRoundTrip(i: int)
    ensures ParseInt(IntToString(i)) == i
  {
    if i < 0 {
      assert IntToString(i)[1..] == NatToString(-i);
      NatToStringRoundTrip(-i);
    } else {
      NatToStringRoundTrip(i);
    }
  }

  lemma NatToStringInjective(a: nat, b: nat)
    ensures NatToString(a) == NatToString(b) ==> a == b
  {
    NatToStringRoundTrip(a);
    NatToStringRoundTrip(b);
  }

  lemma IntToStringInjective(a: int, b: int)
    ensures IntToString(a) == IntToString(b) ==> a == b
  {
    IntToStringRoundTrip(a);
    IntToStringRoundTrip(b);
  }

  // ---------------------------------------------------------------------------
  // Concatenation
  // ---------------------------------------------------------------------------

  /** Replacing one piece of a concatenation by a different piece changes
      the whole string. */
  lemma SpliceDiffers(pre: string, x: string, y: string, post: string)
    requires x != y
    ensures pre + x + post != pre + y + post
  {
    if |x| == |y| {
      var k :| 0 <= k < |x| && x[k] != y[k];
      assert (pre + x + post)[|pre| + k] == x[k];
      assert (pre + y + post)[|pre| + k] == y[k];
    } else {
      assert |pre + x + post| != |pre + y + post|;
    }
  }
}
